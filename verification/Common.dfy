/** Types shared by the models of the firmware's components. */
module Common {

  /** An unsigned 8-bit value of the C sources. */
  type byte = x: int | 0 <= x < 0x100

  datatype Option<+T> = None | Some(value: T)

  /** `m` with the bytes of `bs` written over it from position `at` on. */
  function Put(m: seq<byte>, at: nat, bs: seq<byte>): (r: seq<byte>)
    requires at + |bs| <= |m|
    ensures |r| == |m|
  {
    seq(|m|, i requires 0 <= i < |m| => if at <= i < at + |bs| then bs[i - at] else m[i])
  }

  /** The concatenation of a list of sequences. */
  function Concat<T>(chunks: seq<seq<T>>): seq<T> {
    if chunks == [] then [] else chunks[0] + Concat(chunks[1..])
  }

  lemma {:induction false} ConcatSnoc<T>(chunks: seq<seq<T>>, last: seq<T>)
    ensures Concat(chunks + [last]) == Concat(chunks) + last
  {
    if chunks == [] {
      assert (chunks + [last])[1..] == [];
      assert Concat([last]) == last + Concat<T>([]);
    } else {
      ConcatSnoc(chunks[1..], last);
      assert (chunks + [last])[1..] == chunks[1..] + [last];
    }
  }

  /** A 32-bit word as a little-endian machine reads it. */
  function Word(b: seq<byte>): (w: nat)
    requires |b| == 4
    ensures w < 0x1_0000_0000
  {
    (b[0] as int) + 0x100 * (b[1] as int) + 0x1_0000 * (b[2] as int) + 0x100_0000 * (b[3] as int)
  }

  function Min(a: nat, b: nat): nat { if a < b then a else b }

  lemma FrontOfConcat<T>(a: seq<T>, b: seq<T>)
    requires b != []
    ensures (a + b)[..|a + b| - 1] == a + b[..|b| - 1] && (a + b)[|a + b| - 1] == b[|b| - 1]
  {
  }

  lemma FrontOfSnoc<T>(a: seq<T>, x: T)
    ensures (a + [x])[..|a + [x]| - 1] == a && (a + [x])[|a + [x]| - 1] == x
  {
  }

  lemma Unsnoc<T>(s: seq<T>)
    requires s != []
    ensures s == s[..|s| - 1] + [s[|s| - 1]]
  {
  }
}
