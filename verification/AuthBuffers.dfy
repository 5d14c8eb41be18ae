/** Encryption and decryption as the code does them: filling caller-supplied buffers in place. */
module AuthBuffers {
  import opened Basics
  import opened SessionKeys
  import opened AuthCrypto

  datatype Code = SOFTBUS_OK | SOFTBUS_ENCRYPT_ERR | SOFTBUS_INVALID_PARAM

  /** AesGcmCipherKey: key holds keyLen bytes. */
  class CipherKey {
    var key: seq<byte>
    var iv: seq<byte>

    constructor (key: seq<byte>)
      ensures this.key == key && |iv| == GCM_IV_LEN
    {
      this.key := key;
      iv := seq(GCM_IV_LEN, i => 0);
    }
  }

  /** OutBuf. */
  class OutBuf {
    const buf: array<byte>
    var outLen: nat

    constructor (bufLen: nat)
      ensures fresh(buf) && buf.Length == bufLen
    {
      buf := new byte[bufLen];
      outLen := 0;
    }
  }

  /** after is before with piece written over it from position at on. */
  ghost predicate Wrote(before: seq<byte>, after: seq<byte>, at: nat, piece: seq<byte>) {
    && |after| == |before| && at + |piece| <= |after|
    && forall i: nat :: i < |after| ==> after[i] == if at <= i < at + |piece| then piece[i - at] else before[i]
  }

  /** memcpy_s into a destination that is large enough. */
  method Copy(dst: array<byte>, at: nat, src: seq<byte>)
    requires at + |src| <= dst.Length
    modifies dst
    ensures Wrote(old(dst[..]), dst[..], at, src)
  {
    forall i | 0 <= i < |src| {
      dst[at + i] := src[i];
    }
  }

  lemma WroteThree(s0: seq<byte>, s1: seq<byte>, s2: seq<byte>, s3: seq<byte>, at: nat,
                   a: seq<byte>, b: seq<byte>, c: seq<byte>)
    requires Wrote(s0, s1, at + |a|, b) && Wrote(s1, s2, at, a) && Wrote(s2, s3, at + |a| + |b|, c)
    ensures Wrote(s0, s3, at, a + b + c)
  {
  }

  lemma WroteHead(s0: seq<byte>, s1: seq<byte>, s2: seq<byte>, head: seq<byte>, body: seq<byte>)
    requires Wrote(s0, s1, 0, head) && Wrote(s1, s2, |head|, body)
    ensures s2[..|head| + |body|] == head + body
  {
  }

  /** The packet is written in three parts: cipher text, vector, tag. */
  method WritePacket(buf: array<byte>, at: nat, iv: seq<byte>, cipher: seq<byte>, tag: seq<byte>)
    requires at + |iv| + |cipher| + |tag| <= buf.Length
    modifies buf
    ensures Wrote(old(buf[..]), buf[..], at, iv + cipher + tag)
  {
    Copy(buf, at + |iv|, cipher);
    ghost var s1 := buf[..];
    Copy(buf, at, iv);
    ghost var s2 := buf[..];
    Copy(buf, at + |iv| + |cipher|, tag);
    WroteThree(old(buf[..]), s1, s2, buf[..], at, iv, cipher, tag);
  }

  method MbedAesGcmEncrypt(g: Gcm, ck: CipherKey, plain: seq<byte>, buf: array<byte>, at: nat) returns (ret: int)
    requires Lawful(g) && |ck.iv| == GCM_IV_LEN && at + |plain| + OVERHEAD_LEN <= buf.Length < UINT32
    modifies buf
    ensures IsInt32(ret)
    ensures plain == [] || !g.accepts(ck.key) ==> ret < 0 && buf[..] == old(buf[..])
    ensures plain != [] && g.accepts(ck.key) ==>
      var packet := Sealed(g, ck.key, ck.iv, plain);
      && |packet| == |plain| + OVERHEAD_LEN && Wrote(old(buf[..]), buf[..], at, packet)
      && (if |plain| < INT32 - OVERHEAD_LEN then ret == |packet| else ret < 0)
  {
    if plain == [] {
      return -1;
    }
    if !g.accepts(ck.key) {
      return -1;
    }
    OpenSealed(g, ck.key, ck.iv, plain);
    var cipher := g.encrypt(ck.key, ck.iv, plain).0;
    var tag := g.encrypt(ck.key, ck.iv, plain).1;
    WritePacket(buf, at, ck.iv, cipher, tag);
    return Signed(|plain| + OVERHEAD_LEN);
  }

  /** Overwrites the vector of the key with fresh random bytes, led by the sequence number. */
  method SoftBusEncryptDataWithSeq(g: Gcm, ck: CipherKey, input: seq<byte>, buf: array<byte>, at: nat,
                                   random: seq<byte>, seqNum: int)
    returns (ret: Code, encryptLen: nat)
    requires Lawful(g) && |random| == GCM_IV_LEN && IsInt32(seqNum)
    requires at + |input| + OVERHEAD_LEN <= buf.Length < UINT32
    modifies ck, buf
    ensures
      match EncryptWithSeq(g, old(ck.key), random, input, seqNum)
      case None => ret == SOFTBUS_ENCRYPT_ERR || ret == SOFTBUS_INVALID_PARAM
      case Some(packet) =>
        && ret == SOFTBUS_OK && encryptLen == |packet| && at + encryptLen <= buf.Length
        && Wrote(old(buf[..]), buf[..], at, packet)
  {
    encryptLen := 0;
    if input == [] {
      return SOFTBUS_INVALID_PARAM, 0;
    }
    ck.iv := random;
    ck.iv := SeqBytes(seqNum) + ck.iv[MESSAGE_INDEX_LEN..];
    var result := MbedAesGcmEncrypt(g, ck, input, buf, at);
    if result <= 0 {
      return SOFTBUS_ENCRYPT_ERR, 0;
    }
    return SOFTBUS_OK, result;
  }

  /** AuthEncrypt fills the buffer with exactly the frame of the specification. */
  method AuthEncryptInto(g: Gcm, store: KeyStore, q: Option<DevInfo>, data: seq<byte>, outBuf: OutBuf,
                         random: seq<byte>)
    returns (ret: Code, side: int)
    requires Lawful(g) && |random| == GCM_IV_LEN && forall k :: k in store.keys ==> IsInt32(k.seqNo)
    requires outBuf.buf.Length < UINT32 && |data| < UINT32 - ENCRYPT_OVER_HEAD_LEN
    modifies outBuf, outBuf.buf
    ensures
      match AuthEncrypt(g, store.keys, q, data, outBuf.buf.Length, random)
      case InvalidParam => ret == SOFTBUS_INVALID_PARAM
      case EncryptErr => ret == SOFTBUS_ENCRYPT_ERR
      case Ok((flag, frame)) =>
        && ret == SOFTBUS_OK && side == flag && outBuf.outLen == |frame| <= outBuf.buf.Length
        && outBuf.buf[..outBuf.outLen] == frame && outBuf.buf[outBuf.outLen..] == old(outBuf.buf[..])[|frame|..]
  {
    side := 0;
    if outBuf.buf.Length < |data| + ENCRYPT_OVER_HEAD_LEN {
      return SOFTBUS_INVALID_PARAM, side;
    }
    if q.None? {
      return SOFTBUS_ENCRYPT_ERR, side;
    }
    var entry := store.AuthGetLastSessionKey(q.value);
    if entry.None? {
      return SOFTBUS_ENCRYPT_ERR, side;
    }
    side := entry.value.side;
    var head := SeqBytes(entry.value.seqNo);
    Copy(outBuf.buf, 0, head);
    ghost var s1 := outBuf.buf[..];
    var ck := new CipherKey(entry.value.key);
    var r, outLen := SoftBusEncryptDataWithSeq(g, ck, data, outBuf.buf, MESSAGE_INDEX_LEN, random, entry.value.seqNo);
    if r != SOFTBUS_OK {
      return SOFTBUS_ENCRYPT_ERR, side;
    }
    outBuf.outLen := outLen + MESSAGE_INDEX_LEN;
    WroteHead(old(outBuf.buf[..]), s1, outBuf.buf[..], head,
              EncryptWithSeq(g, entry.value.key, random, data, entry.value.seqNo).value);
    return SOFTBUS_OK, side;
  }

  /** AuthDecrypt fills the buffer with exactly the plain text of the specification. */
  method AuthDecryptInto(g: Gcm, store: KeyStore, q: Option<DevInfo>, data: seq<byte>, outBuf: OutBuf)
    returns (ret: Code)
    requires Lawful(g) && outBuf.buf.Length < UINT32 - ENCRYPT_OVER_HEAD_LEN
    modifies outBuf, outBuf.buf
    ensures
      match AuthDecrypt(g, store.keys, q, data, outBuf.buf.Length)
      case InvalidParam => ret == SOFTBUS_INVALID_PARAM
      case EncryptErr => ret == SOFTBUS_ENCRYPT_ERR
      case Ok(plain) =>
        && ret == SOFTBUS_OK && outBuf.outLen == |plain| <= outBuf.buf.Length
        && outBuf.buf[..outBuf.outLen] == plain && outBuf.buf[outBuf.outLen..] == old(outBuf.buf[..])[|plain|..]
  {
    if |data| < ENCRYPT_OVER_HEAD_LEN || outBuf.buf.Length < |data| - ENCRYPT_OVER_HEAD_LEN {
      return SOFTBUS_INVALID_PARAM;
    }
    if q.None? {
      return SOFTBUS_ENCRYPT_ERR;
    }
    var entry := store.GetSessionKeyByDevinfo(q.value.(seqNo := SeqOf(data[..MESSAGE_INDEX_LEN])));
    if entry.None? {
      return SOFTBUS_ENCRYPT_ERR;
    }
    var ck := new CipherKey(entry.value.key);
    var input := data[MESSAGE_INDEX_LEN..];
    ck.iv := input[..GCM_IV_LEN];
    if |input| <= OVERHEAD_LEN || !g.accepts(ck.key) {
      return SOFTBUS_ENCRYPT_ERR;
    }
    var n := |input| - OVERHEAD_LEN;
    var plain := g.decrypt(ck.key, ck.iv, input[GCM_IV_LEN..GCM_IV_LEN + n], input[GCM_IV_LEN + n..]);
    if plain.None? {
      return SOFTBUS_ENCRYPT_ERR;
    }
    PlainLength(g, ck.key, ck.iv, input[GCM_IV_LEN..GCM_IV_LEN + n], input[GCM_IV_LEN + n..]);
    Copy(outBuf.buf, 0, plain.value);
    var result := Signed(n);
    if result <= 0 {
      return SOFTBUS_ENCRYPT_ERR;
    }
    outBuf.outLen := result;
    return SOFTBUS_OK;
  }

  lemma PlainLength(g: Gcm, key: seq<byte>, iv: seq<byte>, c: seq<byte>, t: seq<byte>)
    requires Lawful(g) && g.decrypt(key, iv, c, t).Some?
    ensures |g.decrypt(key, iv, c, t).value| == |c|
  {
    var p := g.decrypt(key, iv, c, t).value;
    assert g.encrypt(key, iv, p) == (c, t);
    assert |g.encrypt(key, iv, p).0| == |p|;
  }
}
