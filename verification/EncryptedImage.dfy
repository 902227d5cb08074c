/**
 The streaming decryptor of esp_encrypted_img.c: a resumable parser for the
 512-byte header, and a re-chunker that hands the body to AES-GCM in pieces of
 whole 16-byte blocks.
 */
module EncryptedImage {
  import opened Common

  const MAGIC_SIZE: nat := 4
  const ENC_GCM_KEY_SIZE: nat := 384
  const IV_SIZE: nat := 16
  const BIN_SIZE_DATA: nat := 4
  const AUTH_SIZE: nat := 16
  const RESERVED_HEADER: nat := 88
  const HEADER_DATA_SIZE: nat := 512
  const IMG_MAGIC: nat := 0x0788b6cf

  const KEY_AT: nat := MAGIC_SIZE
  const IV_AT: nat := KEY_AT + ENC_GCM_KEY_SIZE
  const SIZE_AT: nat := IV_AT + IV_SIZE
  const AUTH_AT: nat := SIZE_AT + BIN_SIZE_DATA
  const EXTRA_AT: nat := AUTH_AT + AUTH_SIZE

  type Bytes = seq<byte>

  // ----- the cryptography, as far as it is used

  /** `unwrap` is the RSA decryption of the wrapped key; `block` decrypts the
      n-th block of a stream (the last one may be short); `tag` is the tag
      of a whole ciphertext; `emptyAlloc` tells whether realloc gives a buffer
      when it is asked for 0 bytes. */
  datatype Crypto = Crypto(
    unwrap: Bytes -> Option<Bytes>,
    block: (Bytes, Bytes, nat, Bytes) -> Bytes,
    tag: (Bytes, Bytes, Bytes) -> Bytes,
    emptyAlloc: bool)

  /** The decryption of `data` when it starts at block `n`. */
  function Decrypt(c: Crypto, key: Bytes, iv: Bytes, n: nat, data: Bytes): Bytes
    decreases |data|
  {
    if |data| <= 16 then (if data == [] then [] else c.block(key, iv, n, data))
    else c.block(key, iv, n, data[..16]) + Decrypt(c, key, iv, n + 1, data[16..])
  }

  /** Updates compose as long as all but the last are whole blocks. */
  lemma {:induction false} DecryptSplit(c: Crypto, key: Bytes, iv: Bytes, n: nat, a: Bytes, b: Bytes)
    requires |a| % 16 == 0
    ensures Decrypt(c, key, iv, n, a + b) == Decrypt(c, key, iv, n, a) + Decrypt(c, key, iv, n + |a| / 16, b)
    decreases |a|
  {
    if a == [] {
      assert a + b == b;
    } else if b == [] {
      assert a + b == a;
    } else {
      assert (a + b)[..16] == a[..16] && (a + b)[16..] == a[16..] + b;
      DecryptSplit(c, key, iv, n + 1, a[16..], b);
      if |a| == 16 {
        assert a[..16] == a && a[16..] + b == b;
      }
    }
  }

  /** mbedtls_gcm: after an update that is not a multiple of 16 bytes there must
      not be another one. */
  class Gcm {
    const crypto: Crypto
    const key: Bytes
    const iv: Bytes
    var done: Bytes

    constructor (crypto: Crypto, key: Bytes, iv: Bytes)
      ensures this.crypto == crypto && this.key == key && this.iv == iv && done == []
    {
      this.crypto, this.key, this.iv, done := crypto, key, iv, [];
    }

    method Update(data: Bytes) returns (out: Bytes)
      requires |done| % 16 == 0
      modifies this
      ensures done == old(done) + data
      ensures Decrypt(crypto, key, iv, 0, done) == Decrypt(crypto, key, iv, 0, old(done)) + out
    {
      out := Decrypt(crypto, key, iv, |done| / 16, data);
      DecryptSplit(crypto, key, iv, 0, done, data);
      done := done + data;
    }

    method Finish() returns (tag: Bytes)
      ensures tag == crypto.tag(key, iv, done)
    {
      tag := crypto.tag(key, iv, done);
    }
  }

  // ----- what a stream of bytes means, whatever chunks it comes in

  predicate BadMagic(s: Bytes) {
    |s| >= KEY_AT && Word(s[..KEY_AT]) != IMG_MAGIC
  }

  function KeyOf(c: Crypto, s: Bytes): Option<Bytes>
    requires |s| >= IV_AT
  {
    c.unwrap(s[KEY_AT..IV_AT])
  }

  predicate Rejected(c: Crypto, s: Bytes) {
    BadMagic(s) || (|s| >= IV_AT && KeyOf(c, s) == None)
  }

  function IvOf(s: Bytes): Bytes
    requires |s| >= SIZE_AT
  {
    s[IV_AT..SIZE_AT]
  }

  function SizeOf(s: Bytes): nat
    requires |s| >= AUTH_AT
  {
    Word(s[SIZE_AT..AUTH_AT])
  }

  function TagOf(s: Bytes): Bytes
    requires |s| >= EXTRA_AT
  {
    s[AUTH_AT..EXTRA_AT]
  }

  function BodyOf(s: Bytes): Bytes
    requires |s| >= HEADER_DATA_SIZE
  {
    s[HEADER_DATA_SIZE..]
  }

  /** The byte counter, 32 bits wide, has come to the announced size. */
  predicate Complete(s: Bytes) {
    |s| >= HEADER_DATA_SIZE && |BodyOf(s)| % 0x1_0000_0000 == SizeOf(s)
  }

  /** The image is complete, and its last block was not a whole one. */
  predicate Broken(s: Bytes) {
    Complete(s) && |BodyOf(s)| % 16 != 0
  }

  /** The part of the body that has been decrypted once `s` has come in. */
  function Consumed(s: Bytes): Bytes
    requires |s| >= HEADER_DATA_SIZE
  {
    var body := BodyOf(s);
    if Complete(s) then body else body[..|body| - |body| % 16]
  }

  /** What the cipher has been given once `s` has come in. */
  function Taken(s: Bytes): Bytes {
    if |s| < HEADER_DATA_SIZE then [] else Consumed(s)
  }

  /** The verdict of a call that brings the stream from `s` to `t`, if it is not rejected. */
  function Verdict(c: Crypto, s: Bytes, t: Bytes): Err {
    if !Complete(t) then NotFinished
    else if |Taken(t)| == |Taken(s)| && !c.emptyAlloc then NoMem
    else Ok
  }

  /** The verdict at the end; nothing is checked before the body begins, nor after a rejection. */
  predicate Passes(c: Crypto, s: Bytes) {
    || Rejected(c, s) || |s| < HEADER_DATA_SIZE
    || (Complete(s) && c.tag(KeyOf(c, s).value, IvOf(s), BodyOf(s)) == TagOf(s))
  }

  /** The plaintext that has been handed out once `s` has come in. */
  function Emitted(c: Crypto, s: Bytes): Bytes
    requires !Rejected(c, s)
  {
    if |s| < HEADER_DATA_SIZE then [] else Decrypt(c, KeyOf(c, s).value, IvOf(s), 0, Consumed(s))
  }

  // ----- the handle

  datatype State = ReadMagic | ReadGcm | ReadIv | ReadBinSize | ReadAuth | ReadExtraHeader | DataDecode
  datatype Err = Ok | NotFinished | Fail | NoMem

  /** The cached end of the body, and what is added to it. */
  lemma CacheGrows(body: Bytes, more: Bytes, c: nat)
    requires c <= |body|
    ensures body[..|body| - c] + (body[|body| - c..] + more) == body + more
  {
  }

  /** As long as no block is complete, everything stays in the cache. */
  lemma StillCached(body: Bytes, more: Bytes, c: nat)
    requires c == |body| % 16 && c + |more| < 16
    ensures var all, n := body + more, c + |more|;
      |all| % 16 == n && all[..|all| - n] == body[..|body| - c] && all[|all| - n..] == body[|body| - c..] + more
  {
    var all, q := body + more, |body| / 16;
    assert |body| == 16 * q + c;
    assert |all| == 16 * q + (c + |more|);
    Remainder(|all|, q, c + |more|);
  }

  lemma Remainder(n: nat, q: nat, r: nat)
    requires n == 16 * q + r && r < 16
    ensures n % 16 == r
  {
  }

  lemma SlicesJoin(before: Bytes, data: Bytes, a: nat, b: nat, c: nat)
    requires a <= b <= c <= |data|
    ensures (before + data[a..b]) + data[b..c] == before + data[a..c]
  {
  }

  lemma CountOn(n: nat, k: nat)
    ensures (n % 0x1_0000_0000 + k) % 0x1_0000_0000 == (n + k) % 0x1_0000_0000
  {
  }

  /** Behind whole blocks the length of the data decides what is left over. */
  lemma BlocksAndRest(body: Bytes, data: Bytes, main: nat)
    requires |body| % 16 == 0 && main == |data| - |data| % 16
    ensures |body + data| % 16 == |data| % 16
    ensures var all, n := body + data, |data| % 16;
      all[..|all| - n] == body + data[..main] && all[|all| - n..] == data[main..]
    ensures body + [] == body
  {
    assert |body + data| == 16 * (|body| / 16 + |data| / 16) + |data| % 16;
  }

  /** memcpy */
  method CopyInto(dst: array<byte>, at: nat, src: Bytes)
    requires at + |src| <= dst.Length
    modifies dst
    ensures dst[..] == old(dst[..])[..at] + src + old(dst[..])[at + |src|..]
  {
    forall i | 0 <= i < |src| {
      dst[at + i] := src[i];
    }
  }

  class Handle {
    const crypto: Crypto
    var state: State
    var binaryFileLen: nat
    var binaryFileRead: nat
    var gcmKey: Bytes
    const iv: array<byte>
    const authTag: array<byte>
    var cacheBuf: array<byte>
    var cacheBufLen: nat
    var gcm: Gcm?

    ghost var received: Bytes  // everything consumed so far
    ghost var emitted: Bytes   // everything handed out so far

    ghost predicate Apart()
      reads this
    {
      iv.Length == IV_SIZE && authTag.Length == AUTH_SIZE && iv != authTag && cacheBuf != iv && cacheBuf != authTag
    }

    /** The `n` bytes of the current field that have come in so far are in `buf`. */
    ghost predicate Holds(buf: array<byte>, at: nat)
      reads this, buf
    {
      && at <= |received| && binaryFileRead == cacheBufLen == |received| - at <= buf.Length
      && buf[..cacheBufLen] == received[at..]
    }

    ghost predicate KeyKnown()
      reads this
    {
      && !Rejected(crypto, received) && |received| >= IV_AT && KeyOf(crypto, received) == Some(gcmKey)
    }

    ghost predicate GcmReady()
      reads this, iv, gcm
    {
      && KeyKnown() && |received| >= SIZE_AT && iv[..] == IvOf(received)
      && gcm != null && gcm.crypto == crypto && gcm.key == gcmKey && gcm.iv == IvOf(received)
    }

    ghost predicate SizeKnown()
      reads this, iv, gcm
    {
      GcmReady() && |received| >= AUTH_AT && binaryFileLen == SizeOf(received)
    }

    ghost predicate InMagic()
      reads this, cacheBuf
    {
      && Apart() && state == ReadMagic && cacheBuf.Length == ENC_GCM_KEY_SIZE
      && Holds(cacheBuf, 0) && |received| < KEY_AT && emitted == []
    }

    ghost predicate InGcm()
      reads this, cacheBuf
    {
      && Apart() && state == ReadGcm && cacheBuf.Length == ENC_GCM_KEY_SIZE
      && Holds(cacheBuf, KEY_AT) && |received| < IV_AT && !BadMagic(received) && emitted == []
    }

    ghost predicate InIv()
      reads this, iv
    {
      && Apart() && state == ReadIv && cacheBuf.Length == 16
      && Holds(iv, IV_AT) && |received| < SIZE_AT && KeyKnown() && emitted == []
    }

    ghost predicate InBinSize()
      reads this, iv, cacheBuf, gcm
    {
      && Apart() && state == ReadBinSize && cacheBuf.Length == 16
      && Holds(cacheBuf, SIZE_AT) && |received| < AUTH_AT && GcmReady() && gcm.done == [] && emitted == []
    }

    ghost predicate InAuth()
      reads this, iv, authTag, gcm
    {
      && Apart() && state == ReadAuth && cacheBuf.Length == 16
      && Holds(authTag, AUTH_AT) && |received| < EXTRA_AT && SizeKnown() && gcm.done == [] && emitted == []
    }

    ghost predicate InExtra()
      reads this, iv, authTag, gcm
    {
      && Apart() && state == ReadExtraHeader && cacheBuf.Length == 16
      && EXTRA_AT <= |received| < HEADER_DATA_SIZE && binaryFileRead == |received| - EXTRA_AT && cacheBufLen == 0
      && SizeKnown() && authTag[..] == TagOf(received) && gcm.done == [] && emitted == []
    }

    ghost predicate Valid()
      reads this, iv, authTag, cacheBuf, gcm
    {
      match state
      case ReadMagic => InMagic()
      case ReadGcm => InGcm()
      case ReadIv => InIv()
      case ReadBinSize => InBinSize()
      case ReadAuth => InAuth()
      case ReadExtraHeader => InExtra()
      case DataDecode => InData()
    }

    /** After a rejection the handle stays where it was. */
    ghost predicate Refused()
      reads this
    {
      Rejected(crypto, received) && (state == ReadMagic || state == ReadGcm)
    }

    ghost predicate InData()
      reads this, iv, authTag, cacheBuf, gcm
    {
      && Apart() && state == DataDecode && HeaderKnown() && BodyState() && emitted == Emitted(crypto, received)
    }

    /** The whole header is in, and the body is being counted. */
    ghost predicate HeaderKnown()
      reads this, iv, authTag, cacheBuf, gcm
    {
      && HEADER_DATA_SIZE <= |received| && cacheBuf.Length == 16
      && SizeKnown() && authTag[..] == TagOf(received)
      && binaryFileRead == |BodyOf(received)| % 0x1_0000_0000
    }

    /** What is left over from the body waits in the cache. */
    ghost predicate BodyState()
      requires |received| >= HEADER_DATA_SIZE && gcm != null
      reads this, cacheBuf, gcm
    {
      var body := BodyOf(received);
      && gcm.done == Consumed(received)
      && cacheBufLen == |body| - |gcm.done| <= cacheBuf.Length
      && cacheBuf[..cacheBufLen] == body[|gcm.done|..]
    }

    constructor (crypto: Crypto)
      ensures Valid() && state == ReadMagic && received == [] && emitted == []
      ensures this.crypto == crypto && fresh(iv) && fresh(authTag) && fresh(cacheBuf) && gcm == null
    {
      this.crypto := crypto;
      state, binaryFileLen, binaryFileRead, gcmKey, cacheBufLen := ReadMagic, 0, 0, [], 0;
      iv := new byte[IV_SIZE](_ => 0);
      authTag := new byte[AUTH_SIZE](_ => 0);
      cacheBuf := new byte[ENC_GCM_KEY_SIZE](_ => 0);
      gcm := null;
      received, emitted := [], [];
    }

    /** read_and_cache_data: as much of a field of `size` bytes as the chunk has,
        into the buffer that goes with the state. */
    method ReadAndCache(dataIn: Bytes, cur: nat, size: nat, target: array<byte>, ghost at: nat) returns (cur': nat)
      requires Apart() && cur <= |dataIn| && Holds(target, at) && cacheBufLen <= size <= target.Length
      requires target == if state == ReadIv then iv else if state == ReadAuth then authTag else cacheBuf
      modifies target, `binaryFileRead, `cacheBufLen, `received
      ensures cur <= cur' <= |dataIn| && received == old(received) + dataIn[cur..cur']
      ensures Holds(target, at) && cacheBufLen <= size
      ensures cacheBufLen < size ==> cur' == |dataIn|
    {
      var n := Min(|dataIn| - cur, size - binaryFileRead);
      CopyInto(target, cacheBufLen, dataIn[cur..cur + n]);
      cacheBufLen := cacheBufLen + n;
      cur' := cur + n;
      binaryFileRead := binaryFileRead + n;
      received := received + dataIn[cur..cur'];
    }

    method StageMagic(dataIn: Bytes, cur: nat) returns (err: Err, cur': nat)
      requires InMagic() && cur <= |dataIn|
      modifies this, cacheBuf
      ensures cacheBuf == old(cacheBuf) && gcm == old(gcm)
      ensures cur <= cur' <= |dataIn| && received == old(received) + dataIn[cur..cur']
      ensures err == Fail <==> BadMagic(received)
      ensures err == Fail ==> Refused()
      ensures err == NotFinished ==> InMagic() && cur' == |dataIn|
      ensures err == Ok ==> InGcm()
      ensures err != NoMem
    {
      cur' := cur;
      if cacheBufLen == 0 && |dataIn| - cur >= MAGIC_SIZE {
        received := received + dataIn[cur..cur + MAGIC_SIZE];
        cur' := cur + MAGIC_SIZE;
        assert received == received[..KEY_AT] == dataIn[cur..cur'];
        if Word(dataIn[cur..cur + MAGIC_SIZE]) != IMG_MAGIC {
          return Fail, cur';
        }
      } else {
        cur' := ReadAndCache(dataIn, cur, MAGIC_SIZE, cacheBuf, 0);
        if binaryFileRead == MAGIC_SIZE {
          assert received == received[..KEY_AT] == cacheBuf[..MAGIC_SIZE];
          if Word(cacheBuf[..MAGIC_SIZE]) != IMG_MAGIC {
            return Fail, cur';
          }
          binaryFileRead, cacheBufLen := 0, 0;
        } else {
          return NotFinished, cur';
        }
      }
      state := ReadGcm;
      return Ok, cur';
    }

    /** decipher_gcm_key: on success the handle goes on to the IV with a small cache. */
    method DecipherGcmKey(encGcm: Bytes) returns (ok: bool)
      modifies `gcmKey, `cacheBuf, `state, `binaryFileRead, `cacheBufLen
      ensures ok <==> crypto.unwrap(encGcm).Some?
      ensures ok ==> crypto.unwrap(encGcm) == Some(gcmKey) && fresh(cacheBuf) && cacheBuf.Length == 16
                     && state == ReadIv && binaryFileRead == 0 && cacheBufLen == 0
      ensures !ok ==> cacheBuf == old(cacheBuf) && state == old(state)
    {
      match crypto.unwrap(encGcm)
      case None =>
        return false;
      case Some(key) =>
        gcmKey := key;
        cacheBuf := new byte[16](_ => 0);
        state, binaryFileRead, cacheBufLen := ReadIv, 0, 0;
        return true;
    }

    method StageGcm(dataIn: Bytes, cur: nat) returns (err: Err, cur': nat)
      requires InGcm() && cur <= |dataIn|
      modifies this, cacheBuf
      ensures (cacheBuf == old(cacheBuf) || fresh(cacheBuf)) && gcm == old(gcm)
      ensures cur <= cur' <= |dataIn| && received == old(received) + dataIn[cur..cur']
      ensures err == Fail <==> Rejected(crypto, received)
      ensures err == Fail ==> Refused()
      ensures err == NotFinished ==> InGcm() && cur' == |dataIn|
      ensures err == Ok ==> InIv()
      ensures err != NoMem
    {
      cur' := cur;
      var ok;
      ghost var before := received;
      if cacheBufLen == 0 && |dataIn| - cur >= ENC_GCM_KEY_SIZE {
        ok := DecipherGcmKey(dataIn[cur..cur + ENC_GCM_KEY_SIZE]);
        cur' := cur + ENC_GCM_KEY_SIZE;
        received := received + dataIn[cur..cur'];
        assert received[KEY_AT..IV_AT] == dataIn[cur..cur'];
      } else {
        cur' := ReadAndCache(dataIn, cur, ENC_GCM_KEY_SIZE, cacheBuf, KEY_AT);
        if cacheBufLen != ENC_GCM_KEY_SIZE {
          assert received[..KEY_AT] == before[..KEY_AT];
          return NotFinished, cur';
        }
        assert received[KEY_AT..IV_AT] == cacheBuf[..ENC_GCM_KEY_SIZE];
        ok := DecipherGcmKey(cacheBuf[..ENC_GCM_KEY_SIZE]);
      }
      assert received[..KEY_AT] == before[..KEY_AT];
      return if ok then Ok else Fail, cur';
    }

    method StageIv(dataIn: Bytes, cur: nat) returns (err: Err, cur': nat)
      requires InIv() && cur <= |dataIn|
      modifies this, iv
      ensures cacheBuf == old(cacheBuf) && (gcm == old(gcm) || fresh(gcm))
      ensures cur <= cur' <= |dataIn| && received == old(received) + dataIn[cur..cur']
      ensures err == NotFinished ==> InIv() && cur' == |dataIn|
      ensures err == Ok ==> InBinSize()
      ensures err != Fail && err != NoMem
    {
      ghost var before := received;
      cur' := cur;
      if cacheBufLen == 0 && |dataIn| - cur >= IV_SIZE {
        CopyInto(iv, 0, dataIn[cur..cur + IV_SIZE]);
        binaryFileRead := IV_SIZE;
        cur' := cur + IV_SIZE;
        received := received + dataIn[cur..cur'];
        assert iv[..] == received[IV_AT..];
      } else {
        cur' := ReadAndCache(dataIn, cur, IV_SIZE, iv, IV_AT);
      }
      StillKnown(before, received);
      if binaryFileRead != IV_SIZE {
        return NotFinished, cur';
      }
      assert iv[..] == iv[..IV_SIZE] == received[IV_AT..] == IvOf(received);
      state, binaryFileRead, cacheBufLen := ReadBinSize, 0, 0;
      gcm := new Gcm(crypto, gcmKey, iv[..]);
      return Ok, cur';
    }

    /** Fields that have been read completely do not change when more bytes come in. */
    lemma StillKnown(s: Bytes, s': Bytes)
      requires s <= s' && |s| >= IV_AT
      ensures Rejected(crypto, s') <==> Rejected(crypto, s)
      ensures KeyOf(crypto, s') == KeyOf(crypto, s)
      ensures |s| >= SIZE_AT ==> IvOf(s') == IvOf(s)
      ensures |s| >= AUTH_AT ==> SizeOf(s') == SizeOf(s)
      ensures |s| >= EXTRA_AT ==> TagOf(s') == TagOf(s)
    {
      assert forall i | 0 <= i < |s| :: s'[i] == s[i];
      assert s'[..KEY_AT] == s[..KEY_AT] && s'[KEY_AT..IV_AT] == s[KEY_AT..IV_AT];
      assert |s| >= SIZE_AT ==> s'[IV_AT..SIZE_AT] == s[IV_AT..SIZE_AT];
      assert |s| >= AUTH_AT ==> s'[SIZE_AT..AUTH_AT] == s[SIZE_AT..AUTH_AT];
      assert |s| >= EXTRA_AT ==> s'[AUTH_AT..EXTRA_AT] == s[AUTH_AT..EXTRA_AT];
    }

    method StageBinSize(dataIn: Bytes, cur: nat) returns (err: Err, cur': nat)
      requires InBinSize() && cur <= |dataIn|
      modifies this, cacheBuf
      ensures cacheBuf == old(cacheBuf) && gcm == old(gcm)
      ensures cur <= cur' <= |dataIn| && received == old(received) + dataIn[cur..cur']
      ensures err == NotFinished ==> InBinSize() && cur' == |dataIn|
      ensures err == Ok ==> InAuth()
      ensures err != Fail && err != NoMem
    {
      ghost var before := received;
      cur' := cur;
      if cacheBufLen == 0 && |dataIn| - cur >= BIN_SIZE_DATA {
        binaryFileLen := Word(dataIn[cur..cur + BIN_SIZE_DATA]);
        cur' := cur + BIN_SIZE_DATA;
        received := received + dataIn[cur..cur'];
        assert received[SIZE_AT..AUTH_AT] == dataIn[cur..cur'];
      } else {
        cur' := ReadAndCache(dataIn, cur, BIN_SIZE_DATA, cacheBuf, SIZE_AT);
        StillKnown(before, received);
        if binaryFileRead != BIN_SIZE_DATA {
          return NotFinished, cur';
        }
        assert received[SIZE_AT..AUTH_AT] == cacheBuf[..BIN_SIZE_DATA];
        binaryFileLen := Word(cacheBuf[..BIN_SIZE_DATA]);
      }
      StillKnown(before, received);
      state, binaryFileRead, cacheBufLen := ReadAuth, 0, 0;
      return Ok, cur';
    }

    /** As much of the tag as the chunk has, from the chunk or behind what has come in before. */
    method TakeAuth(dataIn: Bytes, cur: nat) returns (cur': nat)
      requires InAuth() && cur <= |dataIn|
      modifies authTag, `binaryFileRead, `cacheBufLen, `received
      ensures cur <= cur' <= |dataIn| && received == old(received) + dataIn[cur..cur']
      ensures binaryFileRead != AUTH_SIZE ==> InAuth() && cur' == |dataIn|
      ensures binaryFileRead == AUTH_SIZE ==>
        SizeKnown() && |received| == EXTRA_AT && authTag[..] == TagOf(received)
    {
      ghost var before := received;
      cur' := cur;
      if cacheBufLen == 0 && |dataIn| - cur >= AUTH_SIZE {
        CopyInto(authTag, 0, dataIn[cur..cur + AUTH_SIZE]);
        binaryFileRead := AUTH_SIZE;
        cur' := cur + AUTH_SIZE;
        received := received + dataIn[cur..cur'];
        assert authTag[..] == received[AUTH_AT..];
      } else {
        cur' := ReadAndCache(dataIn, cur, AUTH_SIZE, authTag, AUTH_AT);
        assert binaryFileRead == AUTH_SIZE ==> authTag[..] == authTag[..AUTH_SIZE] == received[AUTH_AT..];
      }
      StillKnown(before, received);
    }

    method StageAuth(dataIn: Bytes, cur: nat) returns (err: Err, cur': nat)
      requires InAuth() && cur <= |dataIn|
      modifies this, authTag
      ensures cacheBuf == old(cacheBuf) && gcm == old(gcm)
      ensures cur <= cur' <= |dataIn| && received == old(received) + dataIn[cur..cur']
      ensures err == NotFinished ==> InAuth() && cur' == |dataIn|
      ensures err == Ok ==> InExtra()
      ensures err != Fail && err != NoMem
    {
      cur' := TakeAuth(dataIn, cur);
      if binaryFileRead != AUTH_SIZE {
        return NotFinished, cur';
      }
      state, binaryFileRead, cacheBufLen := ReadExtraHeader, 0, 0;
      return Ok, cur';
    }

    method StageExtraHeader(dataIn: Bytes, cur: nat) returns (err: Err, cur': nat)
      requires InExtra() && cur <= |dataIn|
      modifies this
      ensures cacheBuf == old(cacheBuf) && gcm == old(gcm)
      ensures cur <= cur' <= |dataIn| && received == old(received) + dataIn[cur..cur']
      ensures err == NotFinished ==> InExtra() && cur' == |dataIn|
      ensures err == Ok ==> InBody() && |BodyOf(received)| == 0 && emitted == []
      ensures err != Fail && err != NoMem
    {
      ghost var before := received;
      var n := Min(|dataIn| - cur, RESERVED_HEADER - binaryFileRead);
      cur' := cur + n;
      binaryFileRead := binaryFileRead + n;
      received := received + dataIn[cur..cur'];
      StillKnown(before, received);
      if binaryFileRead != RESERVED_HEADER {
        return NotFinished, cur';
      }
      state, binaryFileRead, cacheBufLen := DataDecode, 0, 0;
      return Ok, cur';
    }

    /** In the body, and the last block has not been handed to the cipher yet. */
    ghost predicate InBody()
      reads this, iv, authTag, cacheBuf, gcm
    {
      && Apart() && state == DataDecode && HeaderKnown()
      && Pending(BodyOf(received), |BodyOf(received)| % 16)
      && emitted == Decrypt(crypto, gcmKey, gcm.iv, 0, gcm.done)
    }

    /** The last `n` bytes of the body are in the cache, the rest went through the cipher. */
    ghost predicate Pending(body: Bytes, n: nat)
      requires gcm != null
      reads this, cacheBuf, gcm
    {
      && n <= |body| && cacheBufLen == n <= cacheBuf.Length
      && gcm.done == body[..|body| - n] && cacheBuf[..n] == body[|body| - n..]
    }

    /** The cached bytes are completed to a block, and the block goes through the cipher. */
    method FillCache(data: Bytes, ghost body: Bytes) returns (full: bool, copyLen: nat, out: Bytes)
      requires gcm != null && gcm.crypto == crypto && cacheBuf.Length == 16
      requires Pending(body, |body| % 16) && cacheBufLen != 0
      modifies `cacheBufLen, cacheBuf, gcm
      ensures full ==> copyLen <= |data| && gcm.done == body + data[..copyLen] && |gcm.done| % 16 == 0
      ensures !full ==> out == [] && Pending(body + data, |body + data| % 16)
      ensures Decrypt(crypto, gcm.key, gcm.iv, 0, gcm.done) == Decrypt(crypto, gcm.key, gcm.iv, 0, old(gcm.done)) + out
    {
      ghost var c := cacheBufLen;
      copyLen := Min(16 - cacheBufLen, |data|);
      CacheGrows(body, data[..copyLen], c);
      CopyInto(cacheBuf, cacheBufLen, data[..copyLen]);
      cacheBufLen := cacheBufLen + copyLen;
      assert cacheBuf[..cacheBufLen] == body[|body| - c..] + data[..copyLen];
      out := [];
      full := cacheBufLen == 16;
      if full {
        assert cacheBuf[..16] == cacheBuf[..];
        out := gcm.Update(cacheBuf[..]);
      } else {
        assert data[..copyLen] == data;
        StillCached(body, data, c);
      }
    }

    /** From a block boundary: whole blocks through the cipher, the rest into the cache. */
    method WholeBlocks(data: Bytes, ghost body: Bytes) returns (out: Bytes)
      requires gcm != null && gcm.crypto == crypto && cacheBuf.Length == 16
      requires gcm.done == body && |body| % 16 == 0
      modifies `cacheBufLen, cacheBuf, gcm
      ensures Pending(body + data, |body + data| % 16)
      ensures Decrypt(crypto, gcm.key, gcm.iv, 0, gcm.done) == Decrypt(crypto, gcm.key, gcm.iv, 0, old(gcm.done)) + out
    {
      out := [];
      cacheBufLen := |data| % 16;
      var main := |data| - cacheBufLen;
      BlocksAndRest(body, data, main);
      CopyInto(cacheBuf, 0, data[main..]);
      if main > 0 {
        out := gcm.Update(data[..main]);
      }
      assert cacheBuf[..cacheBufLen] == data[main..];
    }

    /** process_bin before the end of the body: whole blocks go through the cipher,
        the remainder stays in the cache. */
    method Rechunk(data: Bytes, ghost body: Bytes) returns (out: Bytes)
      requires gcm != null && gcm.crypto == crypto && cacheBuf.Length == 16 && Pending(body, |body| % 16)
      modifies `cacheBufLen, cacheBuf, gcm
      ensures Pending(body + data, |body + data| % 16)
      ensures Decrypt(crypto, gcm.key, gcm.iv, 0, gcm.done) == Decrypt(crypto, gcm.key, gcm.iv, 0, old(gcm.done)) + out
    {
      if cacheBufLen != 0 {
        var full, copyLen;
        full, copyLen, out := FillCache(data, body);
        if full {
          var more := WholeBlocks(data[copyLen..], body + data[..copyLen]);
          out := out + more;
          assert body + data[..copyLen] + data[copyLen..] == body + data;
        }
      } else {
        assert gcm.done == body;
        out := WholeBlocks(data, body);
      }
    }

    /** process_bin at the end of the body: everything goes through the cipher. */
    method Flush(data: Bytes, ghost body: Bytes) returns (out: Bytes)
      requires gcm != null && gcm.crypto == crypto && cacheBuf.Length == 16 && Pending(body, |body| % 16)
      modifies `cacheBufLen, cacheBuf, gcm
      ensures gcm.done == body + data && cacheBufLen == 0
      ensures Decrypt(crypto, gcm.key, gcm.iv, 0, gcm.done) == Decrypt(crypto, gcm.key, gcm.iv, 0, old(gcm.done)) + out
    {
      var copyLen := Min(16 - cacheBufLen, |data|);
      CopyInto(cacheBuf, cacheBufLen, data[..copyLen]);
      cacheBufLen := cacheBufLen + copyLen;
      assert cacheBuf[..cacheBufLen] == (body + data[..copyLen])[|gcm.done|..];
      out := gcm.Update(cacheBuf[..cacheBufLen]);
      assert gcm.done == body + data[..copyLen];
      if |data| - copyLen > 0 {
        var more := gcm.Update(data[copyLen..]);
        out := out + more;
      }
      assert gcm.done == body + data;
      cacheBufLen := 0;
    }

    /** More of the body comes in. */
    method CountBody(data: Bytes)
      requires Apart() && HeaderKnown()
      modifies `binaryFileRead, `received
      ensures received == old(received) + data && HeaderKnown()
      ensures BodyOf(received) == old(BodyOf(received)) + data
    {
      StillKnown(received, received + data);
      assert BodyOf(received + data) == BodyOf(received) + data;
      CountOn(|BodyOf(received)|, |data|);
      binaryFileRead := (binaryFileRead + |data|) % 0x1_0000_0000;
      received := received + data;
    }

    /** The end of the body; a buffer for nothing at all may be refused. */
    method FinishBody(data: Bytes, ghost body: Bytes) returns (err: Err, out: Bytes)
      requires gcm != null && gcm.crypto == crypto && cacheBuf.Length == 16 && Pending(body, |body| % 16)
      modifies `cacheBufLen, cacheBuf, gcm
      ensures gcm.done == body + data && cacheBufLen == 0
      ensures Decrypt(crypto, gcm.key, gcm.iv, 0, gcm.done) == Decrypt(crypto, gcm.key, gcm.iv, 0, old(gcm.done)) + out
      ensures err == if |gcm.done| == old(|gcm.done|) && !crypto.emptyAlloc then NoMem else Ok
    {
      if cacheBufLen + |data| == 0 && !crypto.emptyAlloc {
        assert body + data == body;
        return NoMem, [];
      }
      out := Flush(data, body);
      err := Ok;
    }

    lemma InBodyNow()
      requires Apart() && state == DataDecode && HeaderKnown()
      requires var body := BodyOf(received); Pending(body, if Complete(received) then 0 else |body| % 16)
      requires emitted == Decrypt(crypto, gcmKey, gcm.iv, 0, gcm.done)
      ensures InData()
    {
      assert gcm.done == Consumed(received);
    }

    method ProcessBin(dataIn: Bytes, cur: nat) returns (err: Err, out: Bytes)
      requires InBody() && cur <= |dataIn|
      modifies this, cacheBuf, gcm
      ensures cacheBuf == old(cacheBuf) && gcm == old(gcm)
      ensures received == old(received) + dataIn[cur..] && emitted == old(emitted) + out
      ensures InData()
      ensures err == if !Complete(received) then NotFinished
                     else if |gcm.done| == old(|gcm.done|) && !crypto.emptyAlloc then NoMem
                     else Ok
    {
      ghost var body := BodyOf(received);
      CountBody(dataIn[cur..]);
      if binaryFileRead != binaryFileLen {
        out := Rechunk(dataIn[cur..], body);
        err := NotFinished;
      } else {
        err, out := FinishBody(dataIn[cur..], body);
      }
      emitted := emitted + out;
      InBodyNow();
    }

    /** A verdict on the first bytes stands when more bytes come in. */
    lemma VerdictStands(s: Bytes, s': Bytes)
      requires s <= s'
      ensures BadMagic(s) ==> BadMagic(s')
      ensures Rejected(crypto, s) ==> Rejected(crypto, s')
    {
      if |s| >= KEY_AT {
        assert s'[..KEY_AT] == s[..KEY_AT];
      }
      if |s| >= IV_AT {
        StillKnown(s, s');
      }
    }

    ghost predicate InHeader()
      reads this, iv, authTag, cacheBuf, gcm
    {
      InMagic() || InGcm() || InIv() || InBinSize() || InAuth() || InExtra()
    }

    lemma HeaderPending()
      requires InHeader()
      ensures Valid() && !Complete(received) && !Rejected(crypto, received)
    {
    }

    lemma BodyPending()
      requires Valid() && !Broken(received)
      ensures InHeader() || InBody()
    {
    }

    lemma EmittedSoFar()
      requires Valid()
      ensures !Rejected(crypto, received) && emitted == Emitted(crypto, received)
    {
    }

    lemma DataIsGood()
      requires InData()
      ensures Valid() && !Rejected(crypto, received)
    {
    }

    // The cases of the switch in esp_encrypted_img_decrypt_data, each of which
    // falls through to the next one. FromX is entered in the state X or later.

    method FromExtraHeader(dataIn: Bytes, cur: nat) returns (err: Err, cur': nat)
      requires (InExtra() || InBody()) && cur <= |dataIn|
      modifies this
      ensures cacheBuf == old(cacheBuf) && gcm == old(gcm)
      ensures cur <= cur' <= |dataIn| && received == old(received) + dataIn[cur..cur'] && emitted == old(emitted)
      ensures err == NotFinished ==> InHeader() && cur' == |dataIn|
      ensures err == Ok ==> InBody() && (|received| == HEADER_DATA_SIZE || received == old(received))
      ensures err != Fail && err != NoMem
    {
      if state == ReadExtraHeader {
        err, cur' := StageExtraHeader(dataIn, cur);
      } else {
        err, cur' := Ok, cur;
      }
    }

    method FromAuth(dataIn: Bytes, cur: nat) returns (err: Err, cur': nat)
      requires (InAuth() || InExtra() || InBody()) && cur <= |dataIn|
      modifies this, authTag
      ensures cacheBuf == old(cacheBuf) && gcm == old(gcm)
      ensures cur <= cur' <= |dataIn| && received == old(received) + dataIn[cur..cur'] && emitted == old(emitted)
      ensures err == NotFinished ==> InHeader() && cur' == |dataIn|
      ensures err == Ok ==> InBody() && (|received| == HEADER_DATA_SIZE || received == old(received))
      ensures err != Fail && err != NoMem
    {
      cur' := cur;
      if state == ReadAuth {
        err, cur' := StageAuth(dataIn, cur');
        if err != Ok { return; }
      }
      var mid := cur';
      err, cur' := FromExtraHeader(dataIn, mid);
      SlicesJoin(old(received), dataIn, cur, mid, cur');
    }

    method FromBinSize(dataIn: Bytes, cur: nat) returns (err: Err, cur': nat)
      requires (InBinSize() || InAuth() || InExtra() || InBody()) && cur <= |dataIn|
      modifies this, authTag, cacheBuf
      ensures cacheBuf == old(cacheBuf) && gcm == old(gcm)
      ensures cur <= cur' <= |dataIn| && received == old(received) + dataIn[cur..cur'] && emitted == old(emitted)
      ensures err == NotFinished ==> InHeader() && cur' == |dataIn|
      ensures err == Ok ==> InBody() && (|received| == HEADER_DATA_SIZE || received == old(received))
      ensures err != Fail && err != NoMem
    {
      cur' := cur;
      if state == ReadBinSize {
        err, cur' := StageBinSize(dataIn, cur');
        if err != Ok { return; }
      }
      var mid := cur';
      err, cur' := FromAuth(dataIn, mid);
      SlicesJoin(old(received), dataIn, cur, mid, cur');
    }

    method FromIv(dataIn: Bytes, cur: nat) returns (err: Err, cur': nat)
      requires (InIv() || InBinSize() || InAuth() || InExtra() || InBody()) && cur <= |dataIn|
      modifies this, iv, authTag, cacheBuf
      ensures cacheBuf == old(cacheBuf) && (gcm == old(gcm) || fresh(gcm))
      ensures cur <= cur' <= |dataIn| && received == old(received) + dataIn[cur..cur'] && emitted == old(emitted)
      ensures err == NotFinished ==> InHeader() && cur' == |dataIn|
      ensures err == Ok ==> InBody() && (|received| == HEADER_DATA_SIZE || received == old(received))
      ensures err != Fail && err != NoMem
    {
      cur' := cur;
      if state == ReadIv {
        err, cur' := StageIv(dataIn, cur');
        if err != Ok { return; }
      }
      var mid := cur';
      err, cur' := FromBinSize(dataIn, mid);
      SlicesJoin(old(received), dataIn, cur, mid, cur');
    }

    method FromGcm(dataIn: Bytes, cur: nat) returns (err: Err, cur': nat)
      requires (InGcm() || InIv() || InBinSize() || InAuth() || InExtra() || InBody()) && cur <= |dataIn|
      modifies this, iv, authTag, cacheBuf
      ensures (cacheBuf == old(cacheBuf) || fresh(cacheBuf)) && (gcm == old(gcm) || fresh(gcm))
      ensures cur <= cur' <= |dataIn| && received == old(received) + dataIn[cur..cur']
      ensures err == Fail <==> Rejected(crypto, received)
      ensures err == Fail ==> Refused()
      ensures err != Fail ==> emitted == old(emitted)
      ensures err != NoMem
      ensures err == NotFinished ==> InHeader() && cur' == |dataIn|
      ensures err == Ok ==> InBody() && (|received| == HEADER_DATA_SIZE || received == old(received))
    {
      cur' := cur;
      if state == ReadGcm {
        err, cur' := StageGcm(dataIn, cur');
        if err != Ok { return; }
      }
      var mid := cur';
      err, cur' := FromIv(dataIn, mid);
      SlicesJoin(old(received), dataIn, cur, mid, cur');
    }

    method FromMagic(dataIn: Bytes) returns (err: Err, cur: nat)
      requires InHeader() || InBody()
      modifies this, iv, authTag, cacheBuf
      ensures (cacheBuf == old(cacheBuf) || fresh(cacheBuf)) && (gcm == old(gcm) || fresh(gcm))
      ensures cur <= |dataIn| && received == old(received) + dataIn[..cur]
      ensures err == Fail <==> Rejected(crypto, received)
      ensures err == Fail ==> Refused()
      ensures err != Fail ==> emitted == old(emitted)
      ensures err != NoMem
      ensures err == NotFinished ==> InHeader() && cur == |dataIn|
      ensures err == Ok ==> InBody() && (|received| == HEADER_DATA_SIZE || received == old(received))
    {
      cur := 0;
      if state == ReadMagic {
        err, cur := StageMagic(dataIn, cur);
        if err != Ok { return; }
      }
      ghost var at := cur;
      err, cur := FromGcm(dataIn, cur);
      assert dataIn[..cur] == dataIn[..at] + dataIn[at..cur];
    }

    /** What the cipher has been given when the body is about to be continued. */
    lemma TakenSoFar(before: Bytes)
      requires InBody() && before <= received && !Broken(before)
      requires |received| == HEADER_DATA_SIZE || received == before
      ensures |gcm.done| == |Taken(before)|
    {
      assert |before| == |received| ==> before == received;
    }

    method DecryptData(dataIn: Bytes) returns (err: Err, out: Bytes)
      requires Valid() && !Broken(received) && |dataIn| < 0x8000_0000
      modifies this, iv, authTag, cacheBuf, gcm
      ensures (cacheBuf == old(cacheBuf) || fresh(cacheBuf)) && (gcm == old(gcm) || fresh(gcm))
      ensures var total := old(received) + dataIn;
        err == if Rejected(crypto, total) then Fail else Verdict(crypto, old(received), total)
      ensures err == Fail ==> Refused()
      ensures err != Fail ==> Valid() && received == old(received) + dataIn && emitted == old(emitted) + out
    {
      var cur;
      ghost var total := received + dataIn;
      out := [];
      BodyPending();
      err, cur := FromMagic(dataIn);
      if err == Fail {
        VerdictStands(received, total);
      } else if err == NotFinished {
        HeaderPending();
        assert dataIn[..cur] == dataIn;
      } else {
        CutTogether(old(received), dataIn, cur);
        TakenSoFar(old(received));
        err, out := ProcessBin(dataIn, cur);
        DataIsGood();
      }
    }

    /** esp_encrypted_img_decrypt_end: before the body nothing is checked. */
    method DecryptEnd() returns (err: Err)
      requires Valid() || Refused()
      ensures err == if Passes(crypto, received) then Ok else Fail
    {
      if state == DataDecode {
        if cacheBufLen != 0 || binaryFileRead != binaryFileLen {
          return Fail;
        }
        var gotAuth := gcm.Finish();
        if gotAuth != authTag[..] {
          return Fail;
        }
      } else if !Refused() {
        assert InHeader();
        HeaderPending();
      }
      return Ok;
    }
  }

  lemma CutTogether(a: Bytes, b: Bytes, cut: nat)
    requires cut <= |b|
    ensures a + b[..cut] + b[cut..] == a + b
  {
    assert b[..cut] + b[cut..] == b;
  }

  // ----- whole runs

  datatype Outcome = Outcome(err: Err, out: Bytes)

  /** The run of the decryptor over the rest of the chunks, up to its end. */
  function Feed(c: Crypto, received: Bytes, chunks: seq<Bytes>): Outcome
    requires !Rejected(c, received)
    decreases |chunks|
  {
    if chunks == [] then Outcome(NotFinished, Emitted(c, received))
    else if Rejected(c, received + chunks[0]) then Outcome(Fail, Emitted(c, received))
    else if Complete(received + chunks[0]) then
      Outcome(Verdict(c, received, received + chunks[0]), Emitted(c, received + chunks[0]))
    else Feed(c, received + chunks[0], chunks[1..])
  }

  /** The stream as far as it is fed to the decryptor. */
  function Heard(c: Crypto, received: Bytes, chunks: seq<Bytes>): Bytes
    decreases |chunks|
  {
    if chunks == [] then received
    else
      var s := received + chunks[0];
      if Rejected(c, s) || Complete(s) then s else Heard(c, s, chunks[1..])
  }

  /** Where the caller's loop is after `i` chunks. */
  ghost predicate OnTrack(c: Crypto, chunks: seq<Bytes>, i: nat, err: Err, out: Bytes, received: Bytes) {
    && i <= |chunks|
    && if err == NotFinished then
         && !Complete(received) && !Rejected(c, received) && out == Emitted(c, received)
         && Feed(c, [], chunks) == Feed(c, received, chunks[i..])
         && Heard(c, [], chunks) == Heard(c, received, chunks[i..])
       else
         && Feed(c, [], chunks) == Outcome(err, out)
         && (Passes(c, Heard(c, [], chunks)) <==> Passes(c, received))
  }

  lemma OneChunk(c: Crypto, chunks: seq<Bytes>, i: nat, received: Bytes, out: Bytes,
                 received': Bytes, err': Err, out': Bytes)
    requires OnTrack(c, chunks, i, NotFinished, out, received) && i < |chunks|
    requires var s := received + chunks[i];
      && err' == (if Rejected(c, s) then Fail else Verdict(c, received, s))
      && if err' == Fail then Rejected(c, received') && out' == out
         else received' == s && !Rejected(c, s) && out' == Emitted(c, s)
    ensures OnTrack(c, chunks, i + 1, err', out', received')
  {
    assert chunks[i..][0] == chunks[i] && chunks[i..][1..] == chunks[i + 1..];
  }

  /** The caller's loop: one call for each chunk until the image is done or refused, and the call at the end. */
  method DecryptChunks(c: Crypto, chunks: seq<Bytes>) returns (err: Err, out: Bytes, end: Err)
    requires forall i | 0 <= i < |chunks| :: |chunks[i]| < 0x8000_0000
    ensures Outcome(err, out) == Feed(c, [], chunks)
    ensures end == if Passes(c, Heard(c, [], chunks)) then Ok else Fail
  {
    var handle := new Handle(c);
    out := [];
    err := NotFinished;
    var i := 0;
    while i < |chunks| && err == NotFinished
      invariant handle.crypto == c && OnTrack(c, chunks, i, err, out, handle.received)
      invariant fresh(handle) && fresh(handle.iv) && fresh(handle.authTag) && fresh(handle.cacheBuf)
      invariant handle.gcm != null ==> fresh(handle.gcm)
      invariant if err == Fail then handle.Refused() else handle.Valid() && out == handle.emitted
    {
      ghost var before, sofar := handle.received, out;
      var more;
      err, more := handle.DecryptData(chunks[i]);
      if err != Fail {
        handle.EmittedSoFar();
        out := out + more;
      }
      OneChunk(c, chunks, i, before, sofar, handle.received, err, out);
      i := i + 1;
    }
    end := handle.DecryptEnd();
  }

  /** One of the chunks ends `n` bytes from the start. */
  predicate CutsAt(chunks: seq<Bytes>, n: int)
    decreases |chunks|
  {
    chunks != [] && (n == |chunks[0]| || CutsAt(chunks[1..], n - |chunks[0]|))
  }

  /** An image that is followed by anything: header, the announced number of
      body bytes, and then fewer bytes than would make the counter wrap. */
  predicate ImageThenMore(c: Crypto, s: Bytes) {
    && |s| >= HEADER_DATA_SIZE && !Rejected(c, s)
    && HEADER_DATA_SIZE + SizeOf(s) <= |s| < HEADER_DATA_SIZE + SizeOf(s) + 0x1_0000_0000
  }

  function Plaintext(c: Crypto, s: Bytes): Bytes
    requires ImageThenMore(c, s)
  {
    Decrypt(c, KeyOf(c, s).value, IvOf(s), 0, BodyOf(s)[..SizeOf(s)])
  }

  lemma PrefixAgrees(c: Crypto, s: Bytes, t: Bytes)
    requires s <= t && !Rejected(c, t)
    ensures !Rejected(c, s)
    ensures |s| >= HEADER_DATA_SIZE ==> KeyOf(c, s) == KeyOf(c, t) && IvOf(s) == IvOf(t) && SizeOf(s) == SizeOf(t)
  {
    if |s| >= KEY_AT {
      assert s[..KEY_AT] == t[..KEY_AT];
    }
    if |s| >= IV_AT {
      assert s[KEY_AT..IV_AT] == t[KEY_AT..IV_AT];
    }
    if |s| >= HEADER_DATA_SIZE {
      assert s[IV_AT..SIZE_AT] == t[IV_AT..SIZE_AT] && s[SIZE_AT..AUTH_AT] == t[SIZE_AT..AUTH_AT];
    }
  }

  /** Inside such a stream the counter matches exactly at the end of the image. */
  lemma CompleteAtEnd(c: Crypto, s: Bytes, t: Bytes)
    requires s <= t && ImageThenMore(c, t)
    ensures Complete(s) <==> |s| == HEADER_DATA_SIZE + SizeOf(t)
    ensures Complete(s) ==> !Rejected(c, s) && Emitted(c, s) == Plaintext(c, t)
  {
    PrefixAgrees(c, s, t);
    if |s| >= HEADER_DATA_SIZE {
      var n := |BodyOf(s)|;
      assert n < SizeOf(t) + 0x1_0000_0000;
      if n >= 0x1_0000_0000 {
        assert n % 0x1_0000_0000 == n - 0x1_0000_0000;
      }
      if |s| == HEADER_DATA_SIZE + SizeOf(t) {
        assert BodyOf(s) == BodyOf(t)[..SizeOf(t)];
      }
    }
  }

  /** The call that completes the body has nothing for the cipher exactly if the body is empty. */
  lemma NothingLeft(c: Crypto, s: Bytes, t: Bytes)
    requires s <= t && !Complete(s) && Complete(t) && !Rejected(c, t)
    ensures |Taken(t)| == |Taken(s)| <==> BodyOf(t) == []
  {
    PrefixAgrees(c, s, t);
    assert |s| == |t| ==> s == t;
  }

  /** The image carries the tag of its body. */
  predicate Genuine(c: Crypto, s: Bytes)
    requires ImageThenMore(c, s)
  {
    c.tag(KeyOf(c, s).value, IvOf(s), BodyOf(s)[..SizeOf(s)]) == TagOf(s)
  }

  lemma EndOfImage(c: Crypto, s: Bytes, t: Bytes)
    requires s <= t && ImageThenMore(c, t) && |s| >= HEADER_DATA_SIZE
    ensures Passes(c, s) <==> |s| == HEADER_DATA_SIZE + SizeOf(t) && Genuine(c, t)
  {
    PrefixAgrees(c, s, t);
    CompleteAtEnd(c, s, t);
    assert s[AUTH_AT..EXTRA_AT] == t[AUTH_AT..EXTRA_AT];
    if |s| == HEADER_DATA_SIZE + SizeOf(t) {
      assert BodyOf(s) == BodyOf(t)[..SizeOf(t)];
    }
  }

  /** Chunking independence: the decryptor finishes exactly when some chunk ends
      where the image ends, and then its output is the one-shot decryption; the
      end is successful exactly if moreover the tag is the right one. */
  lemma {:induction false} FinishesIff(c: Crypto, received: Bytes, chunks: seq<Bytes>)
    requires ImageThenMore(c, received + Concat(chunks))
    requires !Complete(received) && !Rejected(c, received)
    ensures var t, r := received + Concat(chunks), Feed(c, received, chunks);
            var cut := CutsAt(chunks, HEADER_DATA_SIZE + SizeOf(t) - |received|);
            && (!cut ==> r.err == NotFinished)
            && (cut ==> r == Outcome(if SizeOf(t) == 0 && !c.emptyAlloc then NoMem else Ok, Plaintext(c, t)))
            && (Passes(c, Heard(c, received, chunks)) <==> cut && Genuine(c, t))
    decreases |chunks|
  {
    var t := received + Concat(chunks);
    if chunks == [] {
      EndOfImage(c, received, t);
    } else {
      var s := received + chunks[0];
      assert s + Concat(chunks[1..]) == t;
      NextChunk(c, received, chunks, s, t);
      if Complete(s) {
        FinishesNow(c, received, s, t);
      } else {
        FinishesIff(c, s, chunks[1..]);
      }
    }
  }

  /** One chunk of an image: it completes the image where that ends, and otherwise the rest is fed. */
  lemma NextChunk(c: Crypto, received: Bytes, chunks: seq<Bytes>, s: Bytes, t: Bytes)
    requires chunks != [] && s == received + chunks[0] && s <= t && ImageThenMore(c, t)
    requires !Complete(received) && !Rejected(c, received)
    ensures !Rejected(c, s) && (Complete(s) <==> |chunks[0]| == HEADER_DATA_SIZE + SizeOf(t) - |received|)
    ensures if Complete(s) then Feed(c, received, chunks) == Outcome(Verdict(c, received, s), Emitted(c, s))
            else Feed(c, received, chunks) == Feed(c, s, chunks[1..])
    ensures Heard(c, received, chunks) == if Complete(s) then s else Heard(c, s, chunks[1..])
  {
    PrefixAgrees(c, s, t);
    CompleteAtEnd(c, s, t);
  }

  lemma FinishesNow(c: Crypto, received: Bytes, s: Bytes, t: Bytes)
    requires received <= s <= t && !Complete(received) && Complete(s) && ImageThenMore(c, t)
    ensures |s| == HEADER_DATA_SIZE + SizeOf(t) && !Rejected(c, s)
    ensures Verdict(c, received, s) == if SizeOf(t) == 0 && !c.emptyAlloc then NoMem else Ok
    ensures Emitted(c, s) == Plaintext(c, t)
    ensures Passes(c, s) <==> Genuine(c, t)
  {
    CompleteAtEnd(c, s, t);
    NothingLeft(c, received, s);
    EndOfImage(c, s, t);
  }

  lemma {:induction false} CutsAtEnd(chunks: seq<Bytes>)
    requires chunks != []
    ensures CutsAt(chunks, |Concat(chunks)|)
    decreases |chunks|
  {
    if |chunks| > 1 {
      CutsAtEnd(chunks[1..]);
    }
  }

  /** A whole image, cut in any way, decrypts to the same plaintext, and the end tells whether its tag is right. */
  lemma WholeImage(c: Crypto, chunks: seq<Bytes>)
    requires var img := Concat(chunks);
             |img| >= HEADER_DATA_SIZE && |img| == HEADER_DATA_SIZE + SizeOf(img) && !Rejected(c, img)
    ensures var img, r := Concat(chunks), Feed(c, [], chunks);
            && r.err == (if BodyOf(img) == [] && !c.emptyAlloc then NoMem else Ok)
            && r.out == Decrypt(c, KeyOf(c, img).value, IvOf(img), 0, BodyOf(img))
            && (Passes(c, Heard(c, [], chunks)) <==>
                c.tag(KeyOf(c, img).value, IvOf(img), BodyOf(img)) == TagOf(img))
  {
    var img := Concat(chunks);
    assert [] + img == img;
    CutsAtEnd(chunks);
    FinishesIff(c, [], chunks);
    assert BodyOf(img)[..SizeOf(img)] == BodyOf(img);
  }

  // ----- an image from its parts

  /** A number below 2^32, the lowest byte first. */
  function SizeBytes(n: nat): (b: Bytes)
    requires n < 0x1_0000_0000
    ensures |b| == 4
  {
    [n % 0x100, n / 0x100 % 0x100, n / 0x1_0000 % 0x100, n / 0x100_0000]
  }

  lemma WordOfBytes(n: nat)
    requires n < 0x1_0000_0000
    ensures Word(SizeBytes(n)) == n
  {
    var a, b, c := n / 0x100, n / 0x1_0000, n / 0x100_0000;
    assert b == a / 0x100 && c == b / 0x100;
  }

  lemma WordInjective(a: Bytes, b: Bytes)
    requires |a| == |b| == 4 && Word(a) == Word(b)
    ensures a == b
  {
    SameDigits(a[0], a[1], a[2], a[3], b[0], b[1], b[2], b[3]);
    assert a == [a[0], a[1], a[2], a[3]] && b == [b[0], b[1], b[2], b[3]];
  }

  lemma SameDigits(a: byte, b: byte, c: byte, d: byte, w: byte, x: byte, y: byte, z: byte)
    requires (a as int) + 0x100 * (b as int) + 0x1_0000 * (c as int) + 0x100_0000 * (d as int)
          == (w as int) + 0x100 * (x as int) + 0x1_0000 * (y as int) + 0x100_0000 * (z as int)
    ensures a == w && b == x && c == y && d == z
  {
    var h: int, i: int, j: int, k: int := a - w, x - b, y - c, z - d;
    NoCarry(h, i + 0x100 * j + 0x1_0000 * k);
    NoCarry(-i, j + 0x100 * k);
    NoCarry(-j, k);
  }

  lemma NoCarry(low: int, high: int)
    requires -0x100 < low < 0x100 && low == 0x100 * high
    ensures low == 0 && high == 0
  {
  }

  /** The magic is these four bytes and no others. */
  lemma MagicIs(s: Bytes)
    requires |s| >= 4
    ensures BadMagic(s) <==> s[..4] != [0xCF, 0xB6, 0x88, 0x07]
  {
    var magic: Bytes := [0xCF, 0xB6, 0x88, 0x07];
    assert Word(magic) == 0x0788b6cf;
    if Word(s[..4]) == Word(magic) { WordInjective(s[..4], magic); }
  }

  datatype Parts = Parts(key: Bytes, iv: Bytes, tag: Bytes, reserved: Bytes, body: Bytes)

  predicate Fitting(p: Parts) {
    |p.key| == 384 && |p.iv| == 16 && |p.tag| == 16 && |p.reserved| == 88 && |p.body| < 0x1_0000_0000
  }

  /** The layout that the documentation of the format gives. */
  function Assemble(p: Parts): (img: Bytes)
    requires Fitting(p)
    ensures |img| == 512 + |p.body|
  {
    [0xCF, 0xB6, 0x88, 0x07] + p.key + p.iv + SizeBytes(|p.body|) + p.tag + p.reserved + p.body
  }

  lemma PartsOfImage(p: Parts, s: Bytes)
    requires Fitting(p) && s == Assemble(p)
    ensures s[..4] == [0xCF, 0xB6, 0x88, 0x07] && s[4..388] == p.key && s[388..404] == p.iv
    ensures s[404..408] == SizeBytes(|p.body|) && s[408..424] == p.tag && s[512..] == p.body
  {
  }

  /** An image put together from its parts, cut in any way, decrypts to the plain text of its body
      with that key and vector, and the end compares that tag. */
  lemma AssembledImage(c: Crypto, p: Parts, key: Bytes, chunks: seq<Bytes>)
    requires Fitting(p) && c.unwrap(p.key) == Some(key) && Concat(chunks) == Assemble(p)
    ensures var r := Feed(c, [], chunks);
            && r.err == (if p.body == [] && !c.emptyAlloc then NoMem else Ok)
            && r.out == Decrypt(c, key, p.iv, 0, p.body)
            && (Passes(c, Heard(c, [], chunks)) <==> c.tag(key, p.iv, p.body) == p.tag)
  {
    var img := Assemble(p);
    PartsOfImage(p, img);
    MagicIs(img);
    WordOfBytes(|p.body|);
    WholeImage(c, chunks);
  }

  /** One with another beginning, or a key that cannot be unwrapped, is refused by the chunk that shows it. */
  lemma RefusedIff(c: Crypto, s: Bytes)
    ensures Rejected(c, s) <==>
            || (|s| >= 4 && s[..4] != [0xCF, 0xB6, 0x88, 0x07])
            || (|s| >= 388 && c.unwrap(s[4..388]) == None)
  {
    if |s| >= 4 { MagicIs(s); }
  }
}
