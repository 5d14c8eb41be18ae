/**
 The encrypted frame: sequence number, initialisation vector, cipher text and tag. The cipher
 itself is a parameter that obeys the laws of authenticated encryption.
 */
module AuthCrypto {
  import opened Basics
  import opened SessionKeys

  const GCM_IV_LEN := 12
  const TAG_LEN := 16
  const OVERHEAD_LEN := GCM_IV_LEN + TAG_LEN
  const MESSAGE_INDEX_LEN := 4
  const ENCRYPT_OVER_HEAD_LEN := OVERHEAD_LEN + MESSAGE_INDEX_LEN
  const UINT32 := 0x1_0000_0000
  const INT32 := 0x8000_0000

  type u32 = n: nat | n < UINT32

  /**
   AES-GCM. accepts says which keys the key schedule takes; encrypt and decrypt are the operations of
   section 7 of NIST SP 800-38D, with empty additional data: decryption gives a plain text exactly
   when encrypting that plain text gives this cipher text and tag.
   */
  datatype Gcm = Gcm(accepts: seq<byte> -> bool,
                     encrypt: (seq<byte>, seq<byte>, seq<byte>) -> (seq<byte>, seq<byte>),
                     decrypt: (seq<byte>, seq<byte>, seq<byte>, seq<byte>) -> Option<seq<byte>>)

  ghost predicate Lawful(g: Gcm) {
    && (forall k: seq<byte>, iv: seq<byte>, p: seq<byte> ::
          |g.encrypt(k, iv, p).0| == |p| && |g.encrypt(k, iv, p).1| == TAG_LEN)
    && (forall k: seq<byte>, iv: seq<byte>, p: seq<byte> ::
          g.decrypt(k, iv, g.encrypt(k, iv, p).0, g.encrypt(k, iv, p).1) == Some(p))
    && (forall k: seq<byte>, iv: seq<byte>, c: seq<byte>, t: seq<byte> ::
          g.decrypt(k, iv, c, t).Some? ==> g.encrypt(k, iv, g.decrypt(k, iv, c, t).value) == (c, t))
  }

  /** The laws can be met: the cipher that changes nothing and tags with zeros meets them. */
  lemma SomeCipherIsLawful() returns (g: Gcm)
    ensures Lawful(g) && forall k: seq<byte> :: g.accepts(k)
  {
    var tag: seq<byte> := seq(TAG_LEN, i => 0);
    g := Gcm(k => true, (k, iv, p) => (p, tag), (k, iv, c, t) => if t == tag then Some(c) else None);
  }

  datatype Result<T> = Ok(value: T) | InvalidParam | EncryptErr

  // ---------------------------------------------------------------- the sequence number in memory

  /** The four bytes of a 32-bit number as memcpy moves them, least significant first. */
  function Le(u: nat, k: nat): (b: seq<byte>)
    ensures |b| == k
    decreases k
  {
    if k == 0 then [] else [u % 256] + Le(u / 256, k - 1)
  }

  function LeValue(b: seq<byte>): nat {
    if b == [] then 0 else b[0] + 256 * LeValue(b[1..])
  }

  lemma {:induction false} LeRoundTrip(u: nat, k: nat)
    requires u < Limit(k)
    ensures LeValue(Le(u, k)) == u
    decreases k
  {
    if k > 0 {
      LeRoundTrip(u / 256, k - 1);
      assert Le(u, k)[1..] == Le(u / 256, k - 1);
    }
  }

  predicate IsInt32(n: int) {
    -0x8000_0000 <= n < 0x8000_0000
  }

  /** A 32-bit length returned as int32_t. */
  function Signed(n: nat): int
    requires n < UINT32
  {
    if n < INT32 then n else n - UINT32
  }

  function SeqBytes(n: int): (b: seq<byte>)
    requires IsInt32(n)
    ensures |b| == MESSAGE_INDEX_LEN
  {
    Le(if n < 0 then n + UINT32 else n, MESSAGE_INDEX_LEN)
  }

  function SeqOf(b: seq<byte>): int
  {
    if LeValue(b) < 0x8000_0000 then LeValue(b) else LeValue(b) - UINT32
  }

  lemma SeqRoundTrip(n: int)
    requires IsInt32(n)
    ensures SeqOf(SeqBytes(n)) == n
  {
    assert Limit(4) == UINT32;
    LeRoundTrip(if n < 0 then n + UINT32 else n, 4);
  }

  /** Least significant byte first, a negative number as its two's complement. */
  lemma SeqBytesAre(n: int)
    requires IsInt32(n)
    ensures
      var u := if n < 0 then n + UINT32 else n;
      SeqBytes(n) == [u % 256, u / 256 % 256, u / 65536 % 256, u / 16777216]
  {
    var u := if n < 0 then n + UINT32 else n;
    assert Le(u, 4) == [u % 256] + Le(u / 256, 3);
    assert Le(u / 256, 3) == [u / 256 % 256] + Le(u / 65536, 2);
    assert Le(u / 65536, 2) == [u / 65536 % 256] + Le(u / 16777216, 1);
    assert Le(u / 16777216, 1) == [u / 16777216];
  }

  // ---------------------------------------------------------------- layers

  /** The packet of MbedAesGcmEncrypt: vector, cipher text, tag. */
  function Sealed(g: Gcm, key: seq<byte>, iv: seq<byte>, plain: seq<byte>): seq<byte> {
    iv + g.encrypt(key, iv, plain).0 + g.encrypt(key, iv, plain).1
  }

  /**
   SoftBusEncryptDataWithSeq; random is what the generator delivers, its first bytes give way to the
   number. A packet whose length is negative as an int32_t counts as a failure.
   */
  function EncryptWithSeq(g: Gcm, key: seq<byte>, random: seq<byte>, plain: seq<byte>, seqNo: int): Option<seq<byte>>
    requires |random| == GCM_IV_LEN && IsInt32(seqNo)
  {
    if plain == [] || !g.accepts(key) || |plain| + OVERHEAD_LEN >= INT32 then None
    else Some(Sealed(g, key, SeqBytes(seqNo) + random[MESSAGE_INDEX_LEN..], plain))
  }

  /** SoftBusDecryptData, with the plain text's length passed through an int32_t. */
  function Decrypt(g: Gcm, key: seq<byte>, input: seq<byte>): Option<seq<byte>> {
    if |input| <= OVERHEAD_LEN || !g.accepts(key) || |input| - OVERHEAD_LEN >= INT32 then None
    else
      var n := |input| - OVERHEAD_LEN;
      g.decrypt(key, input[..GCM_IV_LEN], input[GCM_IV_LEN..GCM_IV_LEN + n], input[GCM_IV_LEN + n..])
  }

  /** Opening a packet undoes sealing it, exactly while the length of the plain text is an int32_t. */
  lemma OpenSealed(g: Gcm, key: seq<byte>, iv: seq<byte>, plain: seq<byte>)
    requires Lawful(g) && |iv| == GCM_IV_LEN && plain != [] && g.accepts(key)
    ensures |Sealed(g, key, iv, plain)| == |plain| + OVERHEAD_LEN
    ensures Decrypt(g, key, Sealed(g, key, iv, plain)) == if |plain| < INT32 then Some(plain) else None
  {
    var (c, t) := g.encrypt(key, iv, plain);
    assert |c| == |plain| && |t| == TAG_LEN by {
      assert |g.encrypt(key, iv, plain).0| == |plain|;
    }
    var s := iv + c + t;
    assert s[..GCM_IV_LEN] == iv && s[GCM_IV_LEN..GCM_IV_LEN + |c|] == c && s[GCM_IV_LEN + |c|..] == t;
  }

  /** And only packets sealed under the same key open. */
  lemma OnlySealedOpens(g: Gcm, key: seq<byte>, input: seq<byte>)
    requires Lawful(g) && Decrypt(g, key, input).Some?
    ensures input == Sealed(g, key, input[..GCM_IV_LEN], Decrypt(g, key, input).value)
  {
    var n := |input| - OVERHEAD_LEN;
    var iv, c, t := input[..GCM_IV_LEN], input[GCM_IV_LEN..GCM_IV_LEN + n], input[GCM_IV_LEN + n..];
    assert g.decrypt(key, iv, c, t).Some?;
    assert input == iv + c + t;
  }

  // ---------------------------------------------------------------- frames

  /** AuthEncrypt, with the device key already derived from the connection option. */
  function AuthEncrypt(g: Gcm, keys: seq<SessionKey>, q: Option<DevInfo>, data: seq<byte>, bufLen: u32,
                       random: seq<byte>): Result<(int, seq<byte>)>
    requires |data| < UINT32 - ENCRYPT_OVER_HEAD_LEN
    requires |random| == GCM_IV_LEN && forall k :: k in keys ==> IsInt32(k.seqNo)
  {
    if bufLen < |data| + ENCRYPT_OVER_HEAD_LEN then InvalidParam
    else if q.None? then EncryptErr
    else
      var k := First(keys, DeviceTest(q.value));
      if k.None? then EncryptErr
      else
        var sealed_ := EncryptWithSeq(g, k.value.key, random, data, k.value.seqNo);
        if sealed_.None? then EncryptErr else Ok((k.value.side, SeqBytes(k.value.seqNo) + sealed_.value))
  }

  /** AuthDecrypt; the length test is made on the wrapped 32-bit difference. */
  function AuthDecrypt(g: Gcm, keys: seq<SessionKey>, q: Option<DevInfo>, data: seq<byte>, bufLen: u32): Result<seq<byte>>
    requires bufLen < UINT32 - ENCRYPT_OVER_HEAD_LEN
  {
    if |data| < ENCRYPT_OVER_HEAD_LEN || bufLen < |data| - ENCRYPT_OVER_HEAD_LEN then InvalidParam
    else if q.None? then EncryptErr
    else
      var k := First(keys, SeqTest(q.value.(seqNo := SeqOf(data[..MESSAGE_INDEX_LEN]))));
      if k.None? then EncryptErr
      else
        var plain := Decrypt(g, k.value.key, data[MESSAGE_INDEX_LEN..]);
        if plain.None? then EncryptErr else Ok(plain.value)
  }

  /** When AuthEncrypt succeeds, and what it then produces. */
  lemma EncryptExact(g: Gcm, keys: seq<SessionKey>, q: DevInfo, data: seq<byte>, bufLen: u32, random: seq<byte>)
    requires Lawful(g) && |random| == GCM_IV_LEN && forall k :: k in keys ==> IsInt32(k.seqNo)
    requires |data| < UINT32 - ENCRYPT_OVER_HEAD_LEN
    ensures
      var r := AuthEncrypt(g, keys, Some(q), data, bufLen, random);
      var k := First(keys, DeviceTest(q));
      && (r.Ok? <==> bufLen >= |data| + 32 && k.Some? && data != [] && g.accepts(k.value.key)
                     && |data| < INT32 - OVERHEAD_LEN)
      && (r == InvalidParam <==> bufLen < |data| + 32)
      && (r.Ok? ==> r.value.0 == k.value.side && |r.value.1| == |data| + 32)
    ensures AuthEncrypt(g, keys, None, data, bufLen, random) == if bufLen < |data| + 32 then InvalidParam else EncryptErr
  {
    var k := First(keys, DeviceTest(q));
    if k.Some? && data != [] && g.accepts(k.value.key) {
      OpenSealed(g, k.value.key, SeqBytes(k.value.seqNo) + random[MESSAGE_INDEX_LEN..], data);
    }
  }

  lemma FourParts(a: seq<byte>, b: seq<byte>, c: seq<byte>, d: seq<byte>)
    ensures
      var s, i, j := a + (b + c + d), |a| + |b|, |a| + |b| + |c|;
      s[..|a|] == a && s[|a|..i] == b && s[i..j] == c && s[j..] == d
  {
  }

  /**
   The bytes of a frame. The number of the newest key of the device comes first; then a vector that
   is random but for its first four bytes, which are the number again; then the cipher text of the
   data under that key and that vector; then its tag.
   */
  lemma FrameBytes(g: Gcm, keys: seq<SessionKey>, q: DevInfo, data: seq<byte>, bufLen: u32, random: seq<byte>,
                   iv: seq<byte>)
    requires Lawful(g) && |random| == GCM_IV_LEN && forall k :: k in keys ==> IsInt32(k.seqNo)
    requires |data| < UINT32 - ENCRYPT_OVER_HEAD_LEN
    requires AuthEncrypt(g, keys, Some(q), data, bufLen, random).Ok?
    requires |iv| == GCM_IV_LEN && iv[4..] == random[4..]
    requires iv[..4] == SeqBytes(First(keys, DeviceTest(q)).value.seqNo)
    ensures
      var frame, k := AuthEncrypt(g, keys, Some(q), data, bufLen, random).value.1, First(keys, DeviceTest(q)).value;
      && |frame| == |data| + 32 && frame[..4] == SeqBytes(k.seqNo) && frame[4..16] == iv
      && frame[16..16 + |data|] == g.encrypt(k.key, iv, data).0
      && frame[16 + |data|..] == g.encrypt(k.key, iv, data).1
  {
    var frame, k := AuthEncrypt(g, keys, Some(q), data, bufLen, random).value.1, First(keys, DeviceTest(q)).value;
    assert iv == iv[..4] + iv[4..] == SeqBytes(k.seqNo) + random[4..];
    var (c, t) := g.encrypt(k.key, iv, data);
    assert |c| == |data| && |t| == TAG_LEN by {
      assert |g.encrypt(k.key, iv, data).0| == |data|;
    }
    FourParts(SeqBytes(k.seqNo), iv, c, t);
  }

  /**
   What decryption makes of the bytes it is given: the first four name the key, and the cipher is
   asked with that key, the next twelve, the last sixteen and what lies between.
   */
  lemma DecryptExact(g: Gcm, keys: seq<SessionKey>, q: DevInfo, data: seq<byte>, bufLen: u32)
    requires bufLen < UINT32 - ENCRYPT_OVER_HEAD_LEN
    ensures
      var r := AuthDecrypt(g, keys, Some(q), data, bufLen);
      && (r == InvalidParam <==> |data| < 32 || bufLen < |data| - 32)
      && (r.Ok? ==>
            var k := First(keys, SeqTest(q.(seqNo := SeqOf(data[..4]))));
            k.Some? && g.accepts(k.value.key) && 0 < |data| - 32 < INT32 &&
            g.decrypt(k.value.key, data[4..16], data[16..|data| - 16], data[|data| - 16..]) == Some(r.value))
      && (r == EncryptErr ==>
            var k := First(keys, SeqTest(q.(seqNo := SeqOf(data[..4]))));
            k.None? || !g.accepts(k.value.key) || |data| == 32 || |data| - 32 >= INT32 ||
            g.decrypt(k.value.key, data[4..16], data[16..|data| - 16], data[|data| - 16..]) == None)
    ensures AuthDecrypt(g, keys, None, data, bufLen) ==
      if |data| < 32 || bufLen < |data| - 32 then InvalidParam else EncryptErr
  {
    if |data| >= 32 {
      var input := data[MESSAGE_INDEX_LEN..];
      var n := |input| - OVERHEAD_LEN;
      assert input[..GCM_IV_LEN] == data[4..16] && input[GCM_IV_LEN..GCM_IV_LEN + n] == data[16..|data| - 16];
      assert input[GCM_IV_LEN + n..] == data[|data| - 16..];
    }
  }

  /**
   A frame is recovered byte for byte under any store in which the key it was made with is still
   the one that answers for its sequence number.
   */
  lemma FrameRoundTrip(g: Gcm, keys: seq<SessionKey>, later: seq<SessionKey>, q: DevInfo, data: seq<byte>,
                       bufLen: u32, random: seq<byte>, outLen: u32)
    requires Lawful(g) && |random| == GCM_IV_LEN && forall k :: k in keys ==> IsInt32(k.seqNo)
    requires |data| <= outLen < UINT32 - ENCRYPT_OVER_HEAD_LEN
    requires AuthEncrypt(g, keys, Some(q), data, bufLen, random).Ok?
    requires
      var k := First(keys, DeviceTest(q)).value;
      First(later, SeqTest(q.(seqNo := k.seqNo))) == Some(k)
    ensures
      var frame := AuthEncrypt(g, keys, Some(q), data, bufLen, random).value.1;
      |frame| == |data| + 32 && AuthDecrypt(g, later, Some(q), frame, outLen) == Ok(data)
  {
    EncryptExact(g, keys, q, data, bufLen, random);
    var k := First(keys, DeviceTest(q)).value;
    var head, iv := SeqBytes(k.seqNo), SeqBytes(k.seqNo) + random[MESSAGE_INDEX_LEN..];
    var body := Sealed(g, k.key, iv, data);
    OpenSealed(g, k.key, iv, data);
    SeqRoundTrip(k.seqNo);
    var frame := head + body;
    assert frame[..MESSAGE_INDEX_LEN] == head && frame[MESSAGE_INDEX_LEN..] == body;
  }

  lemma {:induction false} DeviceThenSeq(keys: seq<SessionKey>, q: DevInfo)
    requires First(keys, DeviceTest(q)).Some?
    ensures
      var k := First(keys, DeviceTest(q)).value;
      First(keys, SeqTest(q.(seqNo := k.seqNo))) == Some(k)
  {
    var k := First(keys, DeviceTest(q)).value;
    if !DeviceTest(q)(keys[0]) { DeviceThenSeq(keys[1..], q); }
  }

  /**
   After any later trace that sets no other key with this number for the device, decryption recovers
   the data exactly while the key is in the store, and reports an error once it has been evicted or
   cleared; it never yields anything else.
   */
  lemma FrameSurvives(g: Gcm, keys: seq<SessionKey>, q: DevInfo, data: seq<byte>, bufLen: u32, random: seq<byte>,
                      outLen: u32, ops: seq<Op>)
    requires Lawful(g) && |random| == GCM_IV_LEN && forall k :: k in keys ==> IsInt32(k.seqNo)
    requires |data| <= outLen < UINT32 - ENCRYPT_OVER_HEAD_LEN
    requires AuthEncrypt(g, keys, Some(q), data, bufLen, random).Ok?
    requires
      var q' := q.(seqNo := First(keys, DeviceTest(q)).value.seqNo);
      forall op :: op in ops ==> AddsNoAnswer(op, q')
    ensures
      var k := First(keys, DeviceTest(q)).value;
      var frame := AuthEncrypt(g, keys, Some(q), data, bufLen, random).value.1;
      var later := ApplyAll(keys, ops);
      AuthDecrypt(g, later, Some(q), frame, outLen) == if k in later then Ok(data) else EncryptErr
  {
    var k := First(keys, DeviceTest(q)).value;
    var q' := q.(seqNo := k.seqNo);
    var later := ApplyAll(keys, ops);
    DeviceThenSeq(keys, q);
    FirstIsHead(keys, SeqTest(q'));
    AnswerSurvives(keys, q', ops);
    FirstIsHead(later, SeqTest(q'));
    if First(later, SeqTest(q')).Some? {
      FrameRoundTrip(g, keys, later, q, data, bufLen, random, outLen);
    } else {
      assert SeqTest(q')(k);
      LostKey(g, keys, later, q, data, bufLen, random, outLen);
    }
  }

  lemma LostKey(g: Gcm, keys: seq<SessionKey>, later: seq<SessionKey>, q: DevInfo, data: seq<byte>,
                bufLen: u32, random: seq<byte>, outLen: u32)
    requires Lawful(g) && |random| == GCM_IV_LEN && forall k :: k in keys ==> IsInt32(k.seqNo)
    requires |data| <= outLen < UINT32 - ENCRYPT_OVER_HEAD_LEN
    requires AuthEncrypt(g, keys, Some(q), data, bufLen, random).Ok?
    requires First(later, SeqTest(q.(seqNo := First(keys, DeviceTest(q)).value.seqNo))) == None
    ensures
      var frame := AuthEncrypt(g, keys, Some(q), data, bufLen, random).value.1;
      AuthDecrypt(g, later, Some(q), frame, outLen) == EncryptErr
  {
    EncryptExact(g, keys, q, data, bufLen, random);
    var k := First(keys, DeviceTest(q)).value;
    SeqRoundTrip(k.seqNo);
    var frame := AuthEncrypt(g, keys, Some(q), data, bufLen, random).value.1;
    assert frame[..MESSAGE_INDEX_LEN] == SeqBytes(k.seqNo);
  }
}
