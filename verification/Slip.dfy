/**
 SLIP framing of the serial flasher (slip.c), and the frames of its commands
 (protocol.c).
 */
module Slip {
  import opened Common

  const END: byte := 0xC0
  const ESC: byte := 0xDB
  const ESC_END: byte := 0xDC
  const ESC_ESC: byte := 0xDD
  const WORD32: nat := 0x1_0000_0000

  datatype Status = Success | Timeout | Invalid

  // ----- escaping, byte by byte

  function EscapeByte(b: byte): seq<byte> {
    if b == END then [ESC, ESC_END] else if b == ESC then [ESC, ESC_ESC] else [b]
  }

  function Escape(data: seq<byte>): seq<byte> {
    if data == [] then [] else EscapeByte(data[0]) + Escape(data[1..])
  }

  /** Escaping in parts is escaping the whole. */
  lemma {:induction false} EscapeConcat(a: seq<byte>, b: seq<byte>)
    ensures Escape(a + b) == Escape(a) + Escape(b)
    decreases |a|
  {
    if a == [] {
      assert a + b == b;
    } else {
      assert (a + b)[1..] == a[1..] + b;
      EscapeConcat(a[1..], b);
    }
  }

  /** No delimiter is left in escaped data. */
  lemma {:induction false} NoDelimiterInside(data: seq<byte>)
    ensures END !in Escape(data)
    decreases |data|
  {
    if data != [] { NoDelimiterInside(data[1..]); }
  }

  predicate Plain(data: seq<byte>) {
    forall i :: 0 <= i < |data| ==> data[i] != END && data[i] != ESC
  }

  lemma {:induction false} EscapePlain(data: seq<byte>)
    requires Plain(data)
    ensures Escape(data) == data
    decreases |data|
  {
    if data != [] { EscapePlain(data[1..]); }
  }

  // ----- receiving, as a function of what arrives

  datatype Received = Received(status: Status, data: seq<byte>, rest: seq<byte>)

  function Prepend(b: byte, r: Received): Received { r.(data := [b] + r.data) }

  datatype Got = Got(status: Status, b: byte, rest: seq<byte>)

  /** The next byte, unescaped. */
  function One(rx: seq<byte>): Got {
    if rx == [] then Got(Timeout, 0, [])
    else if rx[0] != ESC then Got(Success, rx[0], rx[1..])
    else if |rx| == 1 then Got(Timeout, 0, [])
    else if rx[1] == ESC_END then Got(Success, END, rx[2..])
    else if rx[1] == ESC_ESC then Got(Success, ESC, rx[2..])
    else Got(Invalid, 0, rx[2..])
  }

  /** `size` bytes, unescaped. */
  function Decode(rx: seq<byte>, size: nat): (r: Received)
    ensures |r.data| <= size && (r.status == Success ==> |r.data| == size)
    decreases size
  {
    if size == 0 then Received(Success, [], rx)
    else
      var g := One(rx);
      if g.status == Success then Prepend(g.b, Decode(g.rest, size - 1)) else Received(g.status, [], g.rest)
  }

  /** What follows the next delimiter. */
  function Behind(rx: seq<byte>): Option<seq<byte>> {
    if rx == [] then None else if rx[0] == END then Some(rx[1..]) else Behind(rx[1..])
  }

  /** What is left when delimiters are skipped. */
  function SkipEnds(rx: seq<byte>): seq<byte> {
    if rx != [] && rx[0] == END then SkipEnds(rx[1..]) else rx
  }

  /** The end of a frame: everything up to the next delimiter is skipped. */
  function Finish(r: Received): Received {
    if r.status != Success then r
    else match Behind(r.rest)
      case None => r.(status := Timeout, rest := [])
      case Some(rest) => r.(rest := rest)
  }

  /** How much is received for a size; one less than zero wraps around. */
  function Wanted(size: nat): nat { if size == 0 then WORD32 else size }

  /** A frame, of which `size` bytes are kept.  Its first byte is taken as it is. */
  function Packet(rx: seq<byte>, size: nat): Received
    requires size > 0
  {
    match Behind(rx)
    case None => Received(Timeout, [], [])
    case Some(rest) =>
      var frame := SkipEnds(rest);
      if frame == [] then Received(Timeout, [], [])
      else Finish(Prepend(frame[0], Decode(frame[1..], size - 1)))
  }

  // ----- the port and the code

  /** A subtraction in 32 bits. */
  method OneLess(size: nat) returns (r: nat)
    requires size < WORD32
    ensures r == Wanted(size) - 1
  {
    r := (size + WORD32 - 1) % WORD32;
  }

  /** A serial port: the bytes that will arrive before a read times out, and those written so far. */
  class Port {
    var rx: seq<byte>
    var tx: seq<byte>
    /** How many bytes can be written before a write times out. */
    var room: nat

    method Read() returns (b: Option<byte>)
      modifies this`rx
      ensures b == if old(rx) == [] then None else Some(old(rx)[0])
      ensures rx == if old(rx) == [] then [] else old(rx)[1..]
    {
      if rx == [] { return None; }
      b := Some(rx[0]);
      rx := rx[1..];
    }

    /** A write that times out has written a part. */
    method Write(bytes: seq<byte>) returns (ok: bool)
      modifies this`tx, this`room
      ensures ok == (|bytes| <= old(room))
      ensures tx == old(tx) + if ok then bytes else bytes[..old(room)]
      ensures room == if ok then old(room) - |bytes| else 0
    {
      ok := |bytes| <= room;
      tx := tx + if ok then bytes else bytes[..room];
      room := if ok then room - |bytes| else 0;
    }

    /** What a call leaves behind that was to write `bytes`. */
    twostate predicate Wrote(bytes: seq<byte>, ok: bool)
      reads this
    {
      && ok == (|bytes| <= old(room))
      && tx == old(tx) + (if ok then bytes else bytes[..old(room)])
      && room == if ok then old(room) - |bytes| else 0
    }

    /** A run of plain bytes, and the byte behind it escaped. */
    method WriteRun(run: seq<byte>, b: byte) returns (ok: bool)
      requires b == END || b == ESC
      modifies this`tx, this`room
      ensures Wrote(run + EscapeByte(b), ok)
    {
      if |run| > 0 {
        ok := Write(run);
        if !ok {
          assert (run + EscapeByte(b))[..old(room)] == run[..old(room)];
          return;
        }
      }
      ghost var left := room;
      ok := Write(if b == END then [ESC, ESC_END] else [ESC, ESC_ESC]);
      if !ok { assert (run + EscapeByte(b))[..old(room)] == run + EscapeByte(b)[..left]; }
    }

    /** The port that had `room0` bytes of room after `sent` has been written behind `tx0`. */
    ghost predicate Has(tx0: seq<byte>, room0: nat, sent: seq<byte>)
      reads this
    {
      tx == tx0 + sent && room + |sent| == room0
    }

    /** The port that was full before all of `all` was written. */
    ghost predicate Full(tx0: seq<byte>, room0: nat, all: seq<byte>)
      reads this
    {
      room0 < |all| && tx == tx0 + all[..room0] && room == 0
    }

    /** The run before a byte that needs escaping, and that byte. */
    method SendRun(run: seq<byte>, b: byte, ghost sent: seq<byte>, ghost tail: seq<byte>, ghost all: seq<byte>,
                   ghost tx0: seq<byte>, ghost room0: nat) returns (ok: bool)
      requires b == END || b == ESC
      requires Has(tx0, room0, sent) && all == sent + (run + EscapeByte(b)) + tail
      modifies this`tx, this`room
      ensures if ok then Has(tx0, room0, sent + (run + EscapeByte(b))) else Full(tx0, room0, all)
    {
      CutBehind(sent, run + EscapeByte(b), tail, all, room);
      ok := WriteRun(run, b);
    }

    /** The run at the end. */
    method SendLast(run: seq<byte>, ghost sent: seq<byte>, ghost all: seq<byte>, ghost tx0: seq<byte>, ghost room0: nat)
        returns (ok: bool)
      requires Has(tx0, room0, sent) && all == sent + run
      modifies this`tx, this`room
      ensures if ok then Has(tx0, room0, all) else Full(tx0, room0, all)
    {
      CutBehind(sent, run, [], all, room);
      ok := true;
      if |run| > 0 { ok := Write(run); }
    }

    /** Sends runs of plain bytes in one piece and the others escaped. */
    method Send(data: seq<byte>) returns (ok: bool)
      modifies this`tx, this`room
      ensures Wrote(Escape(data), ok)
    {
      ghost var tx0, room0, all := tx, room, Escape(data);
      var toWrite, written := 0, 0;
      for i := 0 to |data|
        invariant written + toWrite == i && Plain(data[written..i])
        invariant Has(tx0, room0, Escape(data[..written]))
      {
        if data[i] != END && data[i] != ESC {
          PlainSnoc(data, written, i);
          toWrite := toWrite + 1;
        } else {
          RunAndByte(data, written, i);
          ok := SendRun(data[written..i], data[i], Escape(data[..written]), Escape(data[i + 1..]), all, tx0, room0);
          if !ok { return; }
          written, toWrite := i + 1, 0;
        }
      }
      Rest(data, written);
      ok := SendLast(data[written..], Escape(data[..written]), all, tx0, room0);
    }

    /** One byte of a frame, unescaped. */
    method ReadByte() returns (b: byte, status: Status)
      modifies this`rx
      ensures Got(status, b, rx) == One(old(rx))
    {
      b, status := 0, Success;
      var ch := Read();
      if ch.None? { return 0, Timeout; }
      if ch.value == ESC {
        ch := Read();
        if ch.None? { return 0, Timeout; }
        if ch.value == ESC_END { b := END; }
        else if ch.value == ESC_ESC { b := ESC; }
        else { return 0, Invalid; }
      } else {
        b := ch.value;
      }
    }

    /** Fills a part of a buffer; what lies outside is left alone. */
    method ReceiveData(buff: array<byte>, at: nat, size: nat) returns (status: Status)
      requires at + size <= buff.Length
      modifies this`rx, buff
      ensures var r := Decode(old(rx), size);
        status == r.status && rx == r.rest && buff[..] == Put(old(buff[..]), at, r.data)
    {
      status := Success;
      ghost var before, done := buff[..], [];
      var i := 0;
      DecodeNone(rx, size);
      PutNothing(before, at);
      while i < size
        invariant i == |done| <= size
        invariant Decode(old(rx), size) == Joined(done, Decode(rx, size - i))
        invariant buff[..] == Put(before, at, done)
      {
        var b, st := ReadByte();
        if st != Success {
          assert done + [] == done;
          return st;
        }
        JoinedTwice(done, b, Decode(rx, size - i - 1));
        PutSnoc(before, at, done, b);
        buff[at + i] := b;
        done := done + [b];
        i := i + 1;
      }
      assert done + [] == done;
    }

    method WaitForEnd() returns (found: bool)
      modifies this`rx
      ensures found == Behind(old(rx)).Some?
      ensures rx == match Behind(old(rx)) case None => [] case Some(rest) => rest
    {
      while true
        invariant Behind(rx) == Behind(old(rx))
        decreases |rx|
      {
        var ch := Read();
        if ch.None? { return false; }
        if ch.value == END { return true; }
      }
    }

    /** The byte behind a row of delimiters. */
    method FirstByte() returns (ch: Option<byte>)
      modifies this`rx
      ensures var frame := SkipEnds(old(rx));
        if frame == [] then ch == None && rx == [] else ch == Some(frame[0]) && rx == frame[1..]
    {
      ch := Read();
      while ch == Some(END)
        invariant SkipEnds(old(rx)) == SkipEnds((match ch case None => [] case Some(b) => [b]) + rx)
        invariant ch == None ==> rx == []
        decreases |rx|, if ch.Some? then 1 else 0
      {
        assert ([END] + rx)[1..] == rx;
        ch := Read();
      }
      assert ch.Some? ==> ([ch.value] + rx)[1..] == rx;
    }

    method ReceivePacket(buff: array<byte>, size: nat) returns (status: Status)
      requires size < WORD32 && Wanted(size) <= buff.Length
      modifies this`rx, buff
      ensures var r := Packet(old(rx), Wanted(size));
        status == r.status && rx == r.rest && buff[..] == Put(old(buff[..]), 0, r.data)
    {
      var more := OneLess(size);
      ghost var before := buff[..];
      PutNothing(before, 0);
      var found := WaitForEnd();
      if !found { return Timeout; }
      var ch := FirstByte();
      if ch.None? { return Timeout; }
      buff[0] := ch.value;
      ghost var r := Decode(rx, more);
      PutTwice(before, ch.value, r.data);
      status := ReceiveData(buff, 1, more);
      if status != Success { return; }
      found := WaitForEnd();
      status := if found then Success else Timeout;
    }

    method WriteNext(bytes: seq<byte>, ghost sent: seq<byte>, ghost tail: seq<byte>, ghost all: seq<byte>,
                     ghost tx0: seq<byte>, ghost room0: nat) returns (ok: bool)
      requires Has(tx0, room0, sent) && all == sent + bytes + tail
      modifies this`tx, this`room
      ensures if ok then Has(tx0, room0, sent + bytes) else Full(tx0, room0, all)
    {
      CutBehind(sent, bytes, tail, all, room);
      ok := Write(bytes);
    }

    method SendNext(data: seq<byte>, ghost sent: seq<byte>, ghost tail: seq<byte>, ghost all: seq<byte>,
                    ghost tx0: seq<byte>, ghost room0: nat) returns (ok: bool)
      requires Has(tx0, room0, sent) && all == sent + Escape(data) + tail
      modifies this`tx, this`room
      ensures if ok then Has(tx0, room0, sent + Escape(data)) else Full(tx0, room0, all)
    {
      CutBehind(sent, Escape(data), tail, all, room);
      ok := Send(data);
    }

    /** A delimiter and two parts of a frame. */
    method SendFront(cmd: seq<byte>, data: seq<byte>, ghost all: seq<byte>, ghost tx0: seq<byte>, ghost room0: nat)
        returns (ok: bool)
      requires Has(tx0, room0, []) && all == [END] + Escape(cmd) + Escape(data) + [END]
      modifies this`tx, this`room
      ensures if ok then Has(tx0, room0, [END] + Escape(cmd) + Escape(data)) else Full(tx0, room0, all)
    {
      FrontParts(Escape(cmd), Escape(data));
      ok := WriteNext([END], [], Escape(cmd) + Escape(data) + [END], all, tx0, room0);
      if !ok { return; }
      ok := SendNext(cmd, [END], Escape(data) + [END], all, tx0, room0);
      if !ok { return; }
      ok := SendNext(data, [END] + Escape(cmd), [END], all, tx0, room0);
    }

    /** A command and its data in one frame. */
    method SendCommand(cmd: seq<byte>, data: seq<byte>) returns (ok: bool)
      modifies this`tx, this`room
      ensures Wrote([END] + Escape(cmd + data) + [END], ok)
    {
      ghost var tx0, room0, all := tx, room, [END] + Escape(cmd) + Escape(data) + [END];
      EscapeConcat(cmd, data);
      assert [END] + Escape(cmd + data) + [END] == all;
      ok := SendFront(cmd, data, all, tx0, room0);
      if !ok { return; }
      ok := WriteNext([END], [END] + Escape(cmd) + Escape(data), [], all, tx0, room0);
    }
  }

  lemma FrontParts(c: seq<byte>, d: seq<byte>)
    ensures [END] + c + d + [END] == [] + [END] + (c + d + [END])
    ensures [END] + c + d + [END] == [END] + c + (d + [END])
    ensures [] + [END] == [END]
  {
  }

  lemma PutTwice(m: seq<byte>, b: byte, bs: seq<byte>)
    requires 1 + |bs| <= |m|
    ensures Put(m[0 := b], 1, bs) == Put(m, 0, [b] + bs)
  {
  }

  lemma PutNothing(m: seq<byte>, at: nat)
    requires at <= |m|
    ensures Put(m, at, []) == m
  {
  }

  lemma PutSnoc(m: seq<byte>, at: nat, bs: seq<byte>, b: byte)
    requires at + |bs| < |m|
    ensures Put(m, at, bs + [b]) == Put(m, at, bs)[at + |bs| := b]
  {
  }

  function Joined(front: seq<byte>, r: Received): Received { r.(data := front + r.data) }

  lemma DecodeNone(rx: seq<byte>, size: nat)
    ensures Decode(rx, size) == Joined([], Decode(rx, size))
  {
  }

  lemma JoinedTwice(front: seq<byte>, b: byte, r: Received)
    ensures Joined(front, Prepend(b, r)) == Joined(front + [b], r)
  {
    assert front + ([b] + r.data) == (front + [b]) + r.data;
  }

  lemma CutBehind(front: seq<byte>, part: seq<byte>, tail: seq<byte>, all: seq<byte>, left: nat)
    requires all == front + part + tail
    ensures left < |part| ==> all[..|front| + left] == front + part[..left]
  {
  }

  lemma Rest(data: seq<byte>, from: nat)
    requires from <= |data| && Plain(data[from..|data|])
    ensures Escape(data) == Escape(data[..from]) + data[from..]
  {
    assert data == data[..from] + data[from..] && data[from..|data|] == data[from..];
    EscapeConcat(data[..from], data[from..]);
    EscapePlain(data[from..]);
  }

  lemma EscapeOne(b: byte)
    ensures Escape([b]) == EscapeByte(b)
  {
    assert [b][1..] == [];
  }

  lemma EscapeRun(front: seq<byte>, run: seq<byte>, b: byte, tail: seq<byte>)
    requires Plain(run)
    ensures Escape(front + (run + [b])) == Escape(front) + (run + EscapeByte(b))
    ensures Escape(front + (run + [b]) + tail) == Escape(front) + (run + EscapeByte(b)) + Escape(tail)
  {
    EscapePlain(run);
    EscapeOne(b);
    EscapeConcat(run, [b]);
    EscapeConcat(front, run + [b]);
    EscapeConcat(front + (run + [b]), tail);
  }

  /** A run of plain bytes and the byte behind it, escaped. */
  lemma RunAndByte(data: seq<byte>, from: nat, i: nat)
    requires from <= i < |data| && Plain(data[from..i])
    ensures Escape(data[..i + 1]) == Escape(data[..from]) + (data[from..i] + EscapeByte(data[i]))
    ensures Escape(data) == Escape(data[..from]) + (data[from..i] + EscapeByte(data[i])) + Escape(data[i + 1..])
  {
    SplitAt(data, from, i);
    EscapeRun(data[..from], data[from..i], data[i], data[i + 1..]);
  }

  lemma SplitAt(data: seq<byte>, from: nat, i: nat)
    requires from <= i < |data|
    ensures data[..i + 1] == data[..from] + (data[from..i] + [data[i]])
    ensures data == data[..from] + (data[from..i] + [data[i]]) + data[i + 1..]
  {
  }

  lemma PlainSnoc(data: seq<byte>, from: nat, i: nat)
    requires from <= i < |data| && Plain(data[from..i])
    ensures Plain(data[from..i + 1]) <==> data[i] != END && data[i] != ESC
  {
    assert data[from..i + 1] == data[from..i] + [data[i]];
  }

  // ----- frames that arrive

  lemma {:induction false} DecodeEscaped(data: seq<byte>, n: nat, tail: seq<byte>)
    requires n <= |data|
    ensures Decode(Escape(data) + tail, n) == Received(Success, data[..n], Escape(data[n..]) + tail)
    decreases n
  {
    if n > 0 {
      var b, rest := data[0], data[1..];
      FirstOfData(data, n);
      assert Escape(data) + tail == EscapeByte(b) + (Escape(rest) + tail);
      OneEscaped(b, Escape(rest) + tail);
      DecodeEscaped(rest, n - 1, tail);
    } else {
      assert data[0..] == data;
    }
  }

  lemma FirstOfData(data: seq<byte>, n: nat)
    requires 0 < n <= |data|
    ensures data[..n] == [data[0]] + data[1..][..n - 1] && data[1..][n - 1..] == data[n..]
  {
  }

  lemma OneEscaped(b: byte, tail: seq<byte>)
    ensures One(EscapeByte(b) + tail) == Got(Success, b, tail)
  {
    var rx := EscapeByte(b) + tail;
    if b == END || b == ESC {
      assert rx[0] == ESC && rx[2..] == tail;
    } else {
      assert rx[1..] == tail;
    }
  }

  lemma {:induction false} BehindFirst(inside: seq<byte>, rest: seq<byte>)
    requires END !in inside
    ensures Behind(inside + ([END] + rest)) == Some(rest)
    decreases |inside|
  {
    var rx := inside + ([END] + rest);
    if inside == [] {
      assert rx == [END] + rest && rx[1..] == rest;
    } else {
      assert rx[1..] == inside[1..] + ([END] + rest);
      BehindFirst(inside[1..], rest);
    }
  }

  function Ends(n: nat): seq<byte> { if n == 0 then [] else [END] + Ends(n - 1) }

  lemma {:induction false} SkipsAllEnds(n: nat, frame: seq<byte>)
    requires frame != [] && frame[0] != END
    ensures SkipEnds(Ends(n) + frame) == frame
  {
    if n > 0 {
      SkipsAllEnds(n - 1, frame);
      assert (Ends(n) + frame)[1..] == Ends(n - 1) + frame;
    } else {
      assert Ends(0) + frame == frame;
    }
  }

  /** What the receiver stores of a payload: its first byte is not unescaped. */
  function AsRead(payload: seq<byte>): (r: seq<byte>)
    requires payload != []
    ensures |r| >= |payload|
  {
    EscapeByte(payload[0]) + payload[1..]
  }

  lemma EscapeFirst(b: byte, data: seq<byte>)
    ensures Escape([b] + data) == EscapeByte(b) + Escape(data)
  {
    assert ([b] + data)[1..] == data;
  }

  lemma FirstPlain(b: byte, data: seq<byte>, n: nat, tail: seq<byte>) returns (left: seq<byte>)
    requires b != END && b != ESC && n <= |data|
    ensures var r := Decode((Escape([b] + data) + tail)[1..], n);
      r.status == Success && r.data == data[..n] && r.rest == left + tail && END !in left
  {
    EscapeFirst(b, data);
    CutFirst(b, Escape(data), tail);
    DecodeEscaped(data, n, tail);
    left := Escape(data[n..]);
    NoDelimiterInside(data[n..]);
  }

  lemma CutFirst(b: byte, inside: seq<byte>, tail: seq<byte>)
    ensures (([b] + inside) + tail)[1..] == inside + tail
  {
  }

  lemma DecodeCode(code: byte, data: seq<byte>, n: nat, tail: seq<byte>) returns (left: seq<byte>)
    requires code != ESC && code != END && n <= |data|
    ensures var r := Decode([code] + (Escape(data) + tail), n);
      r.status == Success && r.data == ([code] + data)[..n] && r.rest == left + tail && END !in left
  {
    var rx := [code] + (Escape(data) + tail);
    if n == 0 {
      left := [code] + Escape(data);
      NoDelimiterInside(data);
      assert rx == left + tail;
    } else {
      assert rx[1..] == Escape(data) + tail;
      DecodeEscaped(data, n - 1, tail);
      left := Escape(data[n - 1..]);
      NoDelimiterInside(data[n - 1..]);
      assert ([code] + data)[..n] == [code] + data[..n - 1];
    }
  }

  lemma CutSecond(code: byte, inside: seq<byte>, tail: seq<byte>)
    ensures (([ESC, code] + inside) + tail)[1..] == [code] + (inside + tail)
  {
  }

  lemma FirstEscaped(b: byte, data: seq<byte>, n: nat, tail: seq<byte>) returns (left: seq<byte>)
    requires (b == END || b == ESC) && n <= |data|
    ensures var r := Decode((Escape([b] + data) + tail)[1..], n);
      r.status == Success && r.data == ([EscapeByte(b)[1]] + data)[..n] && r.rest == left + tail && END !in left
  {
    var code := EscapeByte(b)[1];
    EscapeFirst(b, data);
    CutSecond(code, Escape(data), tail);
    left := DecodeCode(code, data, n, tail);
  }

  /** What arrives of a frame: anything up to its delimiters, the escaped payload, and a delimiter. */
  function Frame(junk: seq<byte>, ends: nat, payload: seq<byte>): seq<byte> {
    junk + ([END] + (Ends(ends) + (Escape(payload) + [END])))
  }

  lemma Regroup(junk: seq<byte>, ends: nat, payload: seq<byte>, rest: seq<byte>)
    ensures Frame(junk, ends, payload) + rest
         == junk + ([END] + (Ends(ends) + (Escape(payload) + ([END] + rest))))
  {
  }

  /** Every frame that is long enough is received, whatever precedes it, and nothing behind it is touched. */
  lemma FrameIsReceived(junk: seq<byte>, ends: nat, payload: seq<byte>, rest: seq<byte>, size: nat)
    requires END !in junk && 0 < size <= |payload|
    ensures Packet(Frame(junk, ends, payload) + rest, size) == Received(Success, AsRead(payload)[..size], rest)
  {
    var tail := [END] + rest;
    var frame := Escape(payload) + tail;
    var b, data := payload[0], payload[1..];
    assert payload == [b] + data;
    Regroup(junk, ends, payload, rest);
    BehindFirst(junk, Ends(ends) + frame);
    assert frame[0] == EscapeByte(b)[0] != END by { assert Escape(payload)[0] == EscapeByte(b)[0]; }
    SkipsAllEnds(ends, frame);
    var left: seq<byte>;
    if b == END || b == ESC {
      left := FirstEscaped(b, data, size - 1, tail);
    } else {
      left := FirstPlain(b, data, size - 1, tail);
    }
    BehindFirst(left, rest);
    StoredFirst(payload, size);
  }

  lemma StoredFirst(payload: seq<byte>, size: nat)
    requires 0 < size <= |payload|
    ensures var b, data := payload[0], payload[1..];
      AsRead(payload)[..size]
      == [EscapeByte(b)[0]]
         + (if b == END || b == ESC then ([EscapeByte(b)[1]] + data)[..size - 1] else data[..size - 1])
  {
  }

  /** A payload comes back as it was sent exactly if its first byte needs no escaping, or by chance. */
  lemma ReceivedAsSentIff(payload: seq<byte>, size: nat)
    requires 0 < size <= |payload|
    ensures AsRead(payload)[..size] == payload[..size]
       <==> payload[0] != END && (payload[0] == ESC ==> forall i :: 1 <= i < size ==> payload[i] == ESC_ESC)
  {
    var a, p := AsRead(payload)[..size], payload[..size];
    if payload[0] == ESC {
      assert forall i :: 2 <= i < size ==> a[i] == payload[i - 1];
      if a == p { AllSame(p, size); }
    } else if payload[0] == END {
      assert a[0] != p[0];
    }
  }

  lemma {:induction false} AllSame(p: seq<byte>, size: nat)
    requires size <= |p| && (size > 1 ==> p[1] == ESC_ESC)
    requires forall i :: 2 <= i < size ==> p[i] == p[i - 1]
    ensures forall i :: 1 <= i < size ==> p[i] == ESC_ESC
    decreases size
  {
    if size > 2 {
      AllSame(p, size - 1);
      assert p[size - 1] == p[size - 2];
    }
  }

  // ----- streams of frames

  datatype Sent = Sent(junk: seq<byte>, ends: nat, payload: seq<byte>)

  function Stream(frames: seq<Sent>): seq<byte> {
    if frames == [] then []
    else Frame(frames[0].junk, frames[0].ends, frames[0].payload) + Stream(frames[1..])
  }

  /** The packets that successive calls receive; it stops at the first that fails. */
  function Packets(rx: seq<byte>, sizes: seq<nat>): (seq<seq<byte>>, seq<byte>)
    requires forall i :: 0 <= i < |sizes| ==> sizes[i] > 0
    decreases |sizes|
  {
    if sizes == [] then ([], rx)
    else
      var r := Packet(rx, sizes[0]);
      if r.status != Success then ([], r.rest)
      else
        var more := Packets(r.rest, sizes[1..]);
        ([r.data] + more.0, more.1)
  }

  /** Every frame is at least as long as what is asked for. */
  predicate LongEnough(frames: seq<Sent>, sizes: seq<nat>) {
    && |frames| == |sizes|
    && (forall i :: 0 <= i < |sizes| ==> sizes[i] > 0)
    && forall i :: 0 <= i < |frames| ==> sizes[i] <= |frames[i].payload|
  }

  predicate Quiet(frames: seq<Sent>) {
    forall i :: 0 <= i < |frames| ==> END !in frames[i].junk
  }

  predicate FirstsPlain(frames: seq<Sent>) {
    forall i :: 0 <= i < |frames| ==>
      frames[i].payload != [] && frames[i].payload[0] != END && frames[i].payload[0] != ESC
  }

  function Reads(frames: seq<Sent>, sizes: seq<nat>): (r: seq<seq<byte>>)
    requires LongEnough(frames, sizes)
    ensures |r| == |frames| && forall i :: 0 <= i < |r| ==> r[i] == AsRead(frames[i].payload)[..sizes[i]]
    decreases |frames|
  {
    if frames == [] then []
    else [AsRead(frames[0].payload)[..sizes[0]]] + Reads(frames[1..], sizes[1..])
  }

  /** Successive calls return the frames one after the other, and nothing gets lost between them. */
  lemma {:induction false} StreamIsReceived(frames: seq<Sent>, sizes: seq<nat>, rest: seq<byte>)
    requires LongEnough(frames, sizes) && Quiet(frames)
    ensures Packets(Stream(frames) + rest, sizes).0 == Reads(frames, sizes)
    ensures Packets(Stream(frames) + rest, sizes).1 == rest
    decreases |frames|
  {
    if frames == [] {
      assert Stream(frames) + rest == rest;
    } else {
      var f := frames[0];
      assert Stream(frames) + rest == Frame(f.junk, f.ends, f.payload) + (Stream(frames[1..]) + rest);
      FrameIsReceived(f.junk, f.ends, f.payload, Stream(frames[1..]) + rest, sizes[0]);
      StreamIsReceived(frames[1..], sizes[1..], rest);
    }
  }

  /** They are the beginnings of the payloads when no payload starts with a byte that needs escaping. */
  lemma StreamIsReceivedAsSent(frames: seq<Sent>, sizes: seq<nat>, rest: seq<byte>)
    requires LongEnough(frames, sizes) && Quiet(frames) && FirstsPlain(frames)
    ensures var r := Packets(Stream(frames) + rest, sizes).0;
      |r| == |frames| && forall i :: 0 <= i < |frames| ==> r[i] == frames[i].payload[..sizes[i]]
  {
    StreamIsReceived(frames, sizes, rest);
    forall i | 0 <= i < |frames| ensures Reads(frames, sizes)[i] == frames[i].payload[..sizes[i]] {
      ReceivedAsSentIff(frames[i].payload, sizes[i]);
    }
  }

  // ----- what is received of any bytes

  /** A row of bytes that is read as `data`: an escape and its code for one byte, any other byte for itself. */
  predicate Codes(code: seq<byte>, data: seq<byte>)
    decreases |data|
  {
    if data == [] then code == []
    else if code == [] then false
    else if code[0] != 0xDB then code[0] == data[0] && Codes(code[1..], data[1..])
    else
      && |code| >= 2 && (data[0] == 0xC0 || data[0] == 0xDB)
      && code[1] == (if data[0] == 0xC0 then 0xDC else 0xDD)
      && Codes(code[2..], data[1..])
  }

  lemma CodesOfByte(b: byte, code: seq<byte>, data: seq<byte>)
    requires Codes(code, data)
    ensures Codes(EscapeByte(b) + code, [b] + data)
  {
    var c := EscapeByte(b) + code;
    assert ([b] + data)[1..] == data;
    if b == END || b == ESC {
      assert c[2..] == code;
    } else {
      assert c[1..] == code;
    }
  }

  lemma {:induction false} EscapeCodes(data: seq<byte>)
    ensures Codes(Escape(data), data)
    decreases |data|
  {
    if data != [] {
      EscapeCodes(data[1..]);
      CodesOfByte(data[0], Escape(data[1..]), data[1..]);
      assert [data[0]] + data[1..] == data;
    }
  }

  lemma FirstCode(e: seq<byte>, data: seq<byte>) returns (more: seq<byte>)
    requires data != [] && Codes(e, data) && 0xC0 !in e
    ensures e == EscapeByte(data[0]) + more && Codes(more, data[1..]) && 0xC0 !in more
  {
    more := if e[0] == 0xDB then e[2..] else e[1..];
    assert e == e[..|e| - |more|] + more;
    forall i | 0 <= i < |more| ensures more[i] != 0xC0 { assert more[i] == e[|e| - |more| + i]; }
  }

  lemma {:induction false} OnlyEscapeCodes(e: seq<byte>, data: seq<byte>)
    requires Codes(e, data) && 0xC0 !in e
    ensures e == Escape(data)
    decreases |data|
  {
    if data != [] {
      var more := FirstCode(e, data);
      OnlyEscapeCodes(more, data[1..]);
    }
  }

  /** Escaping is the one row of bytes without a delimiter that is read as the data. */
  lemma {:induction false} EscapeIff(e: seq<byte>, data: seq<byte>)
    ensures e == Escape(data) <==> Codes(e, data) && 0xC0 !in e
  {
    EscapeCodes(data);
    NoDelimiterInside(data);
    if Codes(e, data) && 0xC0 !in e { OnlyEscapeCodes(e, data); }
  }

  lemma OneCode(code: seq<byte>, data: seq<byte>, tail: seq<byte>) returns (more: seq<byte>)
    requires data != [] && Codes(code, data)
    ensures Codes(more, data[1..]) && One(code + tail) == Got(Success, data[0], more + tail)
  {
    var n := if code[0] == 0xDB then 2 else 1;
    more := code[n..];
    assert (code + tail)[n..] == more + tail && (code + tail)[0] == code[0];
    if n == 2 { assert (code + tail)[1] == code[1]; }
  }

  lemma JoinedFront(data: seq<byte>, r: Received)
    requires data != []
    ensures Prepend(data[0], Joined(data[1..], r)) == Joined(data, r)
  {
    assert [data[0]] + (data[1..] + r.data) == data + r.data;
  }

  lemma ReadsOne(rx: seq<byte>, n: nat, rest: seq<byte>, data: seq<byte>, r: Received)
    requires n > 0 && data != [] && One(rx) == Got(Success, data[0], rest)
    requires Decode(rest, n - 1) == Joined(data[1..], r)
    ensures Decode(rx, n) == Joined(data, r)
  {
    JoinedFront(data, r);
  }

  /** Whatever follows them, such bytes are read as their data. */
  lemma {:induction false} CodesAreRead(code: seq<byte>, data: seq<byte>, tail: seq<byte>, left: nat)
    requires Codes(code, data)
    ensures Decode(code + tail, |data| + left) == Joined(data, Decode(tail, left))
    decreases |data|
  {
    if data == [] {
      assert code + tail == tail;
      DecodeNone(tail, left);
    } else {
      var more := OneCode(code, data, tail);
      CodesAreRead(more, data[1..], tail, left);
      ReadsOne(code + tail, |data| + left, more + tail, data, Decode(tail, left));
    }
  }

  /** The stream ends inside a code. */
  predicate CutShort(tail: seq<byte>) { tail == [] || tail == [0xDB] }

  /** An escape without a code. */
  predicate Broken(tail: seq<byte>) { |tail| >= 2 && tail[0] == 0xDB && tail[1] != 0xDC && tail[1] != 0xDD }

  lemma TailStops(tail: seq<byte>, n: nat)
    requires n > 0
    ensures CutShort(tail) ==> Decode(tail, n) == Received(Timeout, [], [])
    ensures Broken(tail) ==> Decode(tail, n) == Received(Invalid, [], tail[2..])
  {
  }

  lemma CodesSnocFront(front: byte, more: seq<byte>, data: seq<byte>)
    requires front != 0xDB && Codes(more, data)
    ensures Codes([front] + more, [front] + data)
  {
    assert ([front] + more)[1..] == more && ([front] + data)[1..] == data;
  }

  lemma CodesEscaped(code: byte, more: seq<byte>, data: seq<byte>)
    requires (code == 0xDC || code == 0xDD) && Codes(more, data)
    ensures Codes([0xDB, code] + more, [if code == 0xDC then 0xC0 else 0xDB] + data)
  {
    var b: byte := if code == 0xDC then 0xC0 else 0xDB;
    assert ([0xDB, code] + more)[2..] == more && ([b] + data)[1..] == data;
  }

  /** What was read, and what stopped the reading. */
  ghost predicate Stops(rx: seq<byte>, n: nat, code: seq<byte>, data: seq<byte>, tail: seq<byte>) {
    && rx == code + tail && Codes(code, data)
    && (|data| == n || (|data| < n && (CutShort(tail) || Broken(tail))))
  }

  /** All bytes that can arrive: codes for all that is asked for, or for less and then something
      that stops the reading. */
  lemma {:induction false} AllArrivals(rx: seq<byte>, n: nat)
      returns (code: seq<byte>, data: seq<byte>, tail: seq<byte>)
    ensures Stops(rx, n, code, data, tail)
    decreases n
  {
    code, data, tail := [], [], rx;
    if n == 0 || CutShort(rx) || Broken(rx) {
      assert [] + rx == rx;
    } else if rx[0] != 0xDB {
      code, data, tail := AllArrivals(rx[1..], n - 1);
      CodesSnocFront(rx[0], code, data);
      assert rx == [rx[0]] + rx[1..] && ([rx[0]] + code) + tail == [rx[0]] + (code + tail);
      code, data := [rx[0]] + code, [rx[0]] + data;
    } else {
      code, data, tail := AllArrivals(rx[2..], n - 1);
      CodesEscaped(rx[1], code, data);
      assert rx == [0xDB, rx[1]] + rx[2..] && ([0xDB, rx[1]] + code) + tail == [0xDB, rx[1]] + (code + tail);
      code, data := [0xDB, rx[1]] + code, [if rx[1] == 0xDC then 0xC0 else 0xDB] + data;
    }
  }

  /** What comes of all of them. */
  lemma StopsAs(rx: seq<byte>, n: nat, code: seq<byte>, data: seq<byte>, tail: seq<byte>)
    requires Stops(rx, n, code, data, tail)
    ensures Decode(rx, n) == if |data| == n then Received(Success, data, tail)
                             else if CutShort(tail) then Received(Timeout, data, [])
                             else Received(Invalid, data, tail[2..])
  {
    CodesAreRead(code, data, tail, n - |data|);
    assert data + [] == data;
    if |data| < n { TailStops(tail, n - |data|); }
  }

  /** A frame from the delimiter it was waited for: a row of delimiters, the first byte, and what follows. */
  ghost predicate Begins(rx: seq<byte>, junk: seq<byte>, ends: nat, first: byte, body: seq<byte>) {
    0xC0 !in junk && first != 0xC0 && rx == junk + ([0xC0] + (Ends(ends) + ([first] + body)))
  }

  lemma BeginningIsFound(rx: seq<byte>, junk: seq<byte>, ends: nat, first: byte, body: seq<byte>, size: nat)
    requires Begins(rx, junk, ends, first, body) && size > 0
    ensures Packet(rx, size) == Finish(Prepend(first, Decode(body, size - 1)))
  {
    var frame := [first] + body;
    BehindFirst(junk, Ends(ends) + frame);
    SkipsAllEnds(ends, frame);
    assert frame[1..] == body;
  }

  /**
   A frame is received exactly as its parts say: the first byte as it is, the others
   unescaped, and the rest up to the next delimiter skipped.
   */
  lemma AnyFrame(rx: seq<byte>, junk: seq<byte>, ends: nat, first: byte, body: seq<byte>, size: nat,
                 code: seq<byte>, data: seq<byte>, left: seq<byte>, rest: seq<byte>)
    requires Begins(rx, junk, ends, first, body) && |data| + 1 == size && Codes(code, data)
    requires body == code + (left + ([0xC0] + rest)) && 0xC0 !in left
    ensures Packet(rx, size) == Received(Success, [first] + data, rest)
  {
    BeginningIsFound(rx, junk, ends, first, body, size);
    StopsAs(body, size - 1, code, data, left + ([0xC0] + rest));
    BehindFirst(left, rest);
  }

  /** All others fail: they end too early, before the bytes asked for or before a delimiter, or hold a wrong code. */
  lemma AnyOtherFrame(rx: seq<byte>, junk: seq<byte>, ends: nat, first: byte, body: seq<byte>, size: nat,
                      code: seq<byte>, data: seq<byte>, tail: seq<byte>)
    requires Begins(rx, junk, ends, first, body) && size > 0 && Stops(body, size - 1, code, data, tail)
    requires |data| + 1 == size ==> 0xC0 !in tail
    ensures Packet(rx, size) == if |data| + 1 == size || CutShort(tail) then Received(Timeout, [first] + data, [])
                                else Received(Invalid, [first] + data, tail[2..])
  {
    BeginningIsFound(rx, junk, ends, first, body, size);
    StopsAs(body, size - 1, code, data, tail);
    if |data| + 1 == size { NothingBehind(tail); }
  }

  lemma {:induction false} NothingBehind(rx: seq<byte>)
    requires 0xC0 !in rx
    ensures Behind(rx) == None
    decreases |rx|
  {
    if rx != [] { NothingBehind(rx[1..]); }
  }

  lemma NothingButEnds(junk: seq<byte>, ends: nat, size: nat)
    requires 0xC0 !in junk && size > 0
    ensures Packet(junk, size) == Packet(junk + ([0xC0] + Ends(ends)), size) == Received(Timeout, [], [])
  {
    NothingBehind(junk);
    BehindFirst(junk, Ends(ends));
    OnlyEnds(ends);
  }

  lemma {:induction false} OnlyEnds(n: nat)
    ensures SkipEnds(Ends(n)) == []
  {
    if n > 0 {
      OnlyEnds(n - 1);
      assert Ends(n)[1..] == Ends(n - 1);
    }
  }
}
