// TorCrypto: Tor's byte-level codecs. Unsigned big integers <-> bytes, the
// KDF-TOR key derivation (section 5.2.1 of tor-spec.txt), the layout of the
// hybrid onion-skin encryption (section 0.4 of tor-spec.txt) and the reader
// and writer of the PKCS#1 RSAPublicKey blob (appendix A.1.1 of RFC 8017).
// SHA-1, RSA-OAEP, AES-CTR and the random AES key are parameters: the model
// fixes what is hashed, encrypted and concatenated, not the primitives.
module TorCrypto {
  import opened Bytes
  import opened JavaIo

  const KEY_LEN: nat := 16
  const DH_LEN: nat := 128
  const PK_ENC_LEN: nat := 128
  const PK_PAD_LEN: nat := 42
  const HASH_LEN: nat := 20

  // ---------------------------------------------------------------------------
  // BigInteger <-> unsigned bytes

  /** The minimal unsigned big-endian bytes of `n`: empty for 0, never a leading zero. */
  function Magnitude(n: nat): (m: seq<byte>)
    ensures Unsigned(m) == n
    ensures m == [] <==> n == 0
    ensures m != [] ==> m[0] != 0
    decreases n
  {
    if n == 0 then [] else Magnitude(n / 256) + [(n % 256) as byte]
  }

  /** The value `new BigInteger(s)` gives a non-empty array: big-endian two's complement. */
  function Signed(s: seq<byte>): int
    requires s != []
  {
    if s[0] < 128 then Unsigned(s) else Unsigned(s) - Pow256(|s|)
  }

  /** `BigInteger.toByteArray()` of a non-negative value: the shortest two's-complement
      encoding, so a 0x00 sign byte leads exactly when the magnitude's top bit is set
      or the value is 0. */
  function ToByteArray(n: nat): (r: seq<byte>)
    ensures r != [] && r[0] < 128 && Signed(r) == n && Unsigned(r) == n
    ensures |r| == 1 || r[0] != 0 || r[1] >= 128
  {
    var m := Magnitude(n);
    UnsignedCons(0, m);
    if m == [] || m[0] >= 128 then [0 as byte] + m else m
  }

  /** BNtoByte: the unsigned bytes of `n`, a leading 0x00 sign byte stripped. */
  function BNtoByte(n: nat): (r: seq<byte>)
    ensures Unsigned(r) == n
    ensures r == [] || r[0] != 0
    ensures n == 0 <==> r == []
  {
    var t := ToByteArray(n);
    if t[0] != 0 then t else t[1..]
  }

  /** byteToBN: `b` behind a 0x00 sign byte, read as a BigInteger. */
  function ByteToBN(b: seq<byte>): (n: nat)
    ensures n == Unsigned(b) && n < Pow256(|b|)
  {
    UnsignedCons(0, b);
    UnsignedBound(b);
    Signed([0 as byte] + b)
  }

  /** `b` without its leading zero bytes. */
  function StripZeros(b: seq<byte>): seq<byte>
  {
    if b != [] && b[0] == 0 then StripZeros(b[1..]) else b
  }

  /** A byte string without a leading zero is the minimal encoding of its value. */
  lemma {:induction false} MagnitudeOfUnsigned(s: seq<byte>)
    requires s == [] || s[0] != 0
    ensures Magnitude(Unsigned(s)) == s
  {
    if s != [] {
      var init := s[..|s| - 1];
      MagnitudeOfUnsigned(init);
      assert Unsigned(s) / 256 == Unsigned(init);
      assert Unsigned(s) % 256 == s[|s| - 1] as int;
      assert s == init + [s[|s| - 1]];
    }
  }

  lemma {:induction false} StripZerosValue(b: seq<byte>)
    ensures Unsigned(StripZeros(b)) == Unsigned(b)
    ensures StripZeros(b) == [] || StripZeros(b)[0] != 0
  {
    if b != [] && b[0] == 0 {
      StripZerosValue(b[1..]);
      UnsignedCons(0, b[1..]);
      assert b == [b[0]] + b[1..];
    }
  }

  /** byteToBN inverts BNtoByte. */
  lemma BNtoByteRoundTrip(n: nat)
    ensures ByteToBN(BNtoByte(n)) == n
  {
  }

  /** BNtoByte of byteToBN gives the input back, less its leading zero bytes. */
  lemma {:induction false} ByteToBNRoundTrip(b: seq<byte>)
    ensures BNtoByte(ByteToBN(b)) == StripZeros(b)
  {
    var r := BNtoByte(ByteToBN(b));
    StripZerosValue(b);
    MagnitudeOfUnsigned(r);
    MagnitudeOfUnsigned(StripZeros(b));
  }

  /** Leading zero bytes do not change byteToBN. */
  lemma ByteToBNLeadingZeros(z: nat, b: seq<byte>)
    ensures ByteToBN(seq(z, _ => 0 as byte) + b) == ByteToBN(b)
  {
    UnsignedLeadingZeros(z, b);
  }

  /** The magnitude of `n` has k bytes exactly when 256^(k-1) <= n < 256^k. */
  lemma MagnitudeLength(n: nat, k: nat)
    requires k >= 1 && Pow256(k - 1) <= n < Pow256(k)
    ensures |Magnitude(n)| == k
  {
    var m := Magnitude(n);
    UnsignedBound(m);
    UnsignedLowerBound(m);
    if |m| < k {
      Pow256Monotone(|m|, k - 1);
    } else if |m| > k {
      Pow256Monotone(k, |m| - 1);
    }
  }

  // ---------------------------------------------------------------------------
  // KDF-TOR

  /** A SHA-1 digest. */
  type Digest = s: seq<byte> | |s| == HASH_LEN witness seq(20, _ => 0 as byte)

  /** Block `i` of the key stream: SHA1(secret ++ [(byte) i]). */
  function KdfBlock(sha1: seq<byte> -> Digest, secret: seq<byte>, i: nat): Digest
  {
    sha1(secret + [(i % 256) as byte])
  }

  /** The first `k` blocks of the key stream, in order. */
  function KdfStream(sha1: seq<byte> -> Digest, secret: seq<byte>, k: nat): (r: seq<byte>)
    ensures |r| == HASH_LEN * k
  {
    if k == 0 then [] else KdfStream(sha1, secret, k - 1) + KdfBlock(sha1, secret, k - 1)
  }

  /** The size torKDF allocates: `ceil(length / 20) * 20`, negative for length <= -20. */
  function KdfSize(length: int): int
  {
    ((length + HASH_LEN - 1) / HASH_LEN) * HASH_LEN
  }

  /** torKDF: the key stream cut at the requested length rounded up to whole blocks;
      `None` is the NegativeArraySizeException for a length of -20 or less. */
  method TorKdf(sha1: seq<byte> -> Digest, secret: seq<byte>, length: int) returns (r: Option<seq<byte>>)
    requires |secret| == DH_LEN
    ensures r.None? <==> length + HASH_LEN <= 0
    ensures r.Some? ==> r.value == KdfStream(sha1, secret, KdfSize(length) / HASH_LEN)
  {
    var size := KdfSize(length);
    if size < 0 {
      return None;
    }
    ghost var blocks: nat := (length + HASH_LEN - 1) / HASH_LEN;
    WholeBlocks(blocks);
    var data := new byte[size];
    var hashdata := new byte[|secret| + 1];
    forall j | 0 <= j < |secret| {
      hashdata[j] := secret[j];
    }
    var i := 0;
    while i < data.Length / HASH_LEN
      invariant 0 <= i <= data.Length / HASH_LEN
      invariant hashdata[..|secret|] == secret
      invariant data[..HASH_LEN * i] == KdfStream(sha1, secret, i)
    {
      hashdata[|secret|] := (i % 256) as byte;
      assert hashdata[..] == secret + [(i % 256) as byte];
      CopyDigest(sha1(hashdata[..]), data, HASH_LEN * i);
      i := i + 1;
    }
    assert i == blocks;
    return Some(data[..]);
  }

  /** `blocks` whole digests take HASH_LEN * blocks bytes, and that many bytes hold `blocks` digests. */
  lemma WholeBlocks(blocks: nat)
    ensures (blocks * HASH_LEN) / HASH_LEN == blocks && (HASH_LEN * blocks) / HASH_LEN == blocks
  {
  }

  /** `System.arraycopy(digest, 0, data, at, HASH_LEN)`: the digest lands right after the
      `at` bytes already written. */
  method CopyDigest(digest: Digest, data: array<byte>, at: nat)
    requires at + HASH_LEN <= data.Length
    modifies data
    ensures data[..at + HASH_LEN] == old(data[..at]) + digest
    ensures data[at + HASH_LEN..] == old(data[at + HASH_LEN..])
  {
    forall j | 0 <= j < HASH_LEN {
      data[at + j] := digest[j];
    }
  }

  /** Bytes [20i, 20i+20) of the key stream are block i. */
  lemma {:induction false} KdfStreamBlock(sha1: seq<byte> -> Digest, secret: seq<byte>, k: nat, i: nat)
    requires i < k
    ensures KdfStream(sha1, secret, k)[HASH_LEN * i..HASH_LEN * i + HASH_LEN] == sha1(secret + [(i % 256) as byte])
  {
    if i < k - 1 {
      KdfStreamBlock(sha1, secret, k - 1, i);
      var prev := KdfStream(sha1, secret, k - 1);
      assert KdfStream(sha1, secret, k)[..|prev|] == prev;
    }
  }

  /** A shorter key stream is a prefix of a longer one. */
  lemma {:induction false} KdfStreamPrefix(sha1: seq<byte> -> Digest, secret: seq<byte>, j: nat, k: nat)
    requires j <= k
    ensures KdfStream(sha1, secret, j) == KdfStream(sha1, secret, k)[..HASH_LEN * j]
  {
    if j < k {
      KdfStreamPrefix(sha1, secret, j, k - 1);
      var prev := KdfStream(sha1, secret, k - 1);
      assert KdfStream(sha1, secret, k)[..|prev|] == prev;
    }
  }

  /** The output size is the requested length rounded up to whole 20-byte blocks, not cut to it. */
  lemma KdfSizeRounds(length: int)
    requires length + HASH_LEN > 0
    ensures KdfSize(length) >= 0 && KdfSize(length) % HASH_LEN == 0
    ensures length <= KdfSize(length) < length + HASH_LEN
  {
  }

  /** torKDF for a smaller length is a prefix of torKDF for a larger one. */
  lemma KdfOutputPrefix(sha1: seq<byte> -> Digest, secret: seq<byte>, short: int, long: int)
    requires 0 < short + HASH_LEN && short <= long
    ensures KdfSize(short) <= KdfSize(long)
    ensures KdfStream(sha1, secret, KdfSize(short) / HASH_LEN)
         == KdfStream(sha1, secret, KdfSize(long) / HASH_LEN)[..KdfSize(short)]
  {
    KdfStreamPrefix(sha1, secret, KdfSize(short) / HASH_LEN, KdfSize(long) / HASH_LEN);
  }

  // ---------------------------------------------------------------------------
  // Hybrid encryption

  /** Plaintexts shorter than this go into one RSA-OAEP block. */
  const M1_LIMIT: nat := PK_ENC_LEN - PK_PAD_LEN
  /** The plaintext bytes that share the RSA block with the AES key. */
  const M1_DATA_LEN: nat := PK_ENC_LEN - PK_PAD_LEN - KEY_LEN

  /** The all-zero AES-CTR initialisation vector. */
  const ZERO_IV: seq<byte> := seq(16, _ => 0 as byte)

  /** hybridEncrypt. `rsa` is RSA-OAEP encryption under the relay's key, `aesCtr(k, iv, m)`
      is AES-CTR, and `key` the 16 bytes drawn from the random source. */
  function HybridEncrypt(input: seq<byte>, rsa: seq<byte> -> seq<byte>,
                         aesCtr: (seq<byte>, seq<byte>, seq<byte>) -> seq<byte>,
                         key: seq<byte>): (c: seq<byte>)
    requires |key| == KEY_LEN
    ensures |input| < M1_LIMIT ==> c == rsa(input)
    ensures |input| >= M1_LIMIT ==>
              var m1 := key + input[..M1_DATA_LEN];
              |m1| == M1_LIMIT && m1[..KEY_LEN] == key && m1[KEY_LEN..] + input[M1_DATA_LEN..] == input &&
              c == rsa(m1) + aesCtr(key, ZERO_IV, input[M1_DATA_LEN..])
  {
    if |input| < M1_LIMIT then
      rsa(input)
    else
      var m1 := key + input[..M1_DATA_LEN];
      var m2 := input[M1_DATA_LEN..];
      rsa(m1) + aesCtr(key, ZERO_IV, m2)
  }

  /** What a relay does with the payload: a lone RSA block is decrypted as it is, a longer
      one is an RSA block holding the AES key and the first bytes, then the AES-CTR part. */
  function HybridDecrypt(c: seq<byte>, rsaDecrypt: seq<byte> -> seq<byte>,
                         aesCtr: (seq<byte>, seq<byte>, seq<byte>) -> seq<byte>): seq<byte>
  {
    if |c| <= PK_ENC_LEN then
      rsaDecrypt(c)
    else
      var m1 := rsaDecrypt(c[..PK_ENC_LEN]);
      if |m1| < KEY_LEN then [] else m1[KEY_LEN..] + aesCtr(m1[..KEY_LEN], ZERO_IV, c[PK_ENC_LEN..])
  }

  /** Given a 128-byte RSA block and length-preserving CTR, the output length. */
  lemma HybridEncryptLength(input: seq<byte>, rsa: seq<byte> -> seq<byte>,
                            aesCtr: (seq<byte>, seq<byte>, seq<byte>) -> seq<byte>, key: seq<byte>)
    requires |key| == KEY_LEN
    requires forall m :: |rsa(m)| == PK_ENC_LEN
    requires forall k, iv, m :: |aesCtr(k, iv, m)| == |m|
    ensures |input| < M1_LIMIT ==> |HybridEncrypt(input, rsa, aesCtr, key)| == PK_ENC_LEN
    ensures |input| >= M1_LIMIT ==> |HybridEncrypt(input, rsa, aesCtr, key)| == PK_ENC_LEN + |input| - M1_DATA_LEN
  {
  }

  /** The layout decrypts: the RSA block holds key ++ in[0..70] (exactly 86 bytes, the OAEP
      limit), the rest is in[70..] under AES-CTR with that key and the zero IV, and the relay
      recovers the plaintext. */
  lemma HybridEncryptDecrypt(input: seq<byte>, rsa: seq<byte> -> seq<byte>, rsaDecrypt: seq<byte> -> seq<byte>,
                             aesCtr: (seq<byte>, seq<byte>, seq<byte>) -> seq<byte>, key: seq<byte>)
    requires |key| == KEY_LEN
    requires forall m :: |rsa(m)| == PK_ENC_LEN
    requires forall m | |m| <= M1_LIMIT :: rsaDecrypt(rsa(m)) == m
    requires forall k, iv, m :: |aesCtr(k, iv, m)| == |m|
    requires forall k, iv, m :: aesCtr(k, iv, aesCtr(k, iv, m)) == m
    ensures var c := HybridEncrypt(input, rsa, aesCtr, key);
      (|input| < M1_LIMIT ==> rsaDecrypt(c) == input) &&
      (|input| >= M1_LIMIT ==>
        |key + input[..M1_DATA_LEN]| == M1_LIMIT &&
        rsaDecrypt(c[..PK_ENC_LEN]) == key + input[..M1_DATA_LEN] &&
        aesCtr(key, ZERO_IV, c[PK_ENC_LEN..]) == input[M1_DATA_LEN..]) &&
      HybridDecrypt(c, rsaDecrypt, aesCtr) == input
  {
    var c := HybridEncrypt(input, rsa, aesCtr, key);
    if |input| >= M1_LIMIT {
      var m1 := key + input[..M1_DATA_LEN];
      var m2 := input[M1_DATA_LEN..];
      assert c[..PK_ENC_LEN] == rsa(m1);
      assert c[PK_ENC_LEN..] == aesCtr(key, ZERO_IV, m2);
      var d := rsaDecrypt(c[..PK_ENC_LEN]);
      assert d[..KEY_LEN] == key && d[KEY_LEN..] == input[..M1_DATA_LEN];
      assert input == input[..M1_DATA_LEN] + m2;
    }
  }

  // ---------------------------------------------------------------------------
  // RSAPublicKey blob: SEQUENCE { INTEGER modulus, INTEGER exponent }

  /** The (modulus, public exponent) pair the key factory is handed. */
  datatype RsaPublicKey = RsaPublicKey(modulus: nat, exponent: nat)

  /** A DER long-form length at b[p]: 0x81 and one length byte, or 0x82 and two
      big-endian ones. Yields (form byte, length, position after it). */
  function ParseLength(b: seq<byte>, p: nat): (r: Option<(byte, nat, nat)>)
    ensures r.Some? ==> (r.value.0 == 0x81 || r.value.0 == 0x82) && p < |b| && b[p] == r.value.0
    ensures r.Some? ==> r.value.2 == p + 1 + (r.value.0 as int - 0x80) <= |b|
    ensures r.Some? && r.value.0 == 0x81 ==> r.value.1 == b[p + 1] as nat
    ensures r.Some? && r.value.0 == 0x82 ==> r.value.1 == b[p + 1] as nat * 256 + b[p + 2] as nat
    ensures r.Some? <==> p < |b| && ((b[p] == 0x81 && p + 1 < |b|) || (b[p] == 0x82 && p + 2 < |b|))
  {
    if p >= |b| then None
    else if b[p] == 0x81 then
      if p + 1 < |b| then Some((0x81 as byte, b[p + 1] as nat, p + 2)) else None
    else if b[p] == 0x82 then
      if p + 2 < |b| then Some((0x82 as byte, b[p + 1] as nat * 256 + b[p + 2] as nat, p + 3)) else None
    else None
  }

  /** `read(new byte[count])` at p returns count: some byte is left and `count` of them are. */
  predicate FieldFits(b: seq<byte>, p: nat, count: nat)
  {
    p < |b| && p + count <= |b|
  }

  /** The exponent INTEGER at b[t], read the way asn1GetPublicKey reads it: the 0x02 tag,
      one length byte, then that many bytes, which it yields. */
  function ParseExponent(b: seq<byte>, t: nat): Option<seq<byte>>
  {
    if t + 1 >= |b| || b[t] != 0x02 then None
    else
      var expLen := b[t + 1] as nat;
      if !FieldFits(b, t + 2, expLen) then None
      else Some(b[t + 2..t + 2 + expLen])
  }

  /** The two INTEGERs from b[p] on: the modulus with a long-form length, then the exponent;
      yields the modulus bytes and the exponent bytes. */
  function ParseFields(b: seq<byte>, p: nat): Option<(seq<byte>, seq<byte>)>
  {
    if p >= |b| || b[p] != 0x02 then None
    else match ParseLength(b, p + 1)
      case None => None
      case Some((_, modLen, q)) =>
        if !FieldFits(b, q, modLen) then None
        else match ParseExponent(b, q + modLen)
          case None => None
          case Some(exponent) => Some((b[q..q + modLen], exponent))
  }

  /** asn1GetPublicKey, position by position: the SEQUENCE header, whose declared length
      must account for the whole blob, then the two INTEGERs. */
  function ParsePublicKey(b: seq<byte>): Option<RsaPublicKey>
  {
    if b == [] || b[0] != 0x30 then None
    else match ParseLength(b, 1)
      case None => None
      case Some((form, seqLen, p)) =>
        if form as int - 0x80 + 2 + seqLen != |b| then None
        else match ParseFields(b, p)
          case None => None
          case Some((modulus, exponent)) => Some(RsaPublicKey(Unsigned(modulus), Unsigned(exponent)))
  }

  /** Reads a DER length the way asn1GetPublicKey does: the form byte, then one or two length bytes. */
  method ReadLength(dis: DataInput) returns (r: Option<(byte, nat)>)
    requires dis.Valid()
    modifies dis
    ensures dis.Valid()
    ensures ParseLength(dis.buf, old(dis.pos)).Some? ==>
              r == Some((ParseLength(dis.buf, old(dis.pos)).value.0, ParseLength(dis.buf, old(dis.pos)).value.1)) &&
              dis.pos == ParseLength(dis.buf, old(dis.pos)).value.2
    ensures ParseLength(dis.buf, old(dis.pos)).None? ==> r.None?
  {
    var form := dis.ReadUnsignedByte();
    if form == Some(0x81) {
      var count := dis.ReadUnsignedByte();
      if count.None? {
        return None;
      }
      return Some((0x81 as byte, count.value as nat));
    } else if form == Some(0x82) {
      var count := dis.ReadUnsignedShort();
      if count.None? {
        return None;
      }
      return Some((0x82 as byte, count.value));
    }
    return None;
  }

  /** The exponent part of asn1GetPublicKey: tag, one length byte, `read(new byte[count])`. */
  method ReadExponent(dis: DataInput) returns (r: Option<seq<byte>>)
    requires dis.Valid()
    modifies dis
    ensures r == ParseExponent(dis.buf, old(dis.pos))
  {
    ghost var t := dis.pos;
    var tag := dis.ReadUnsignedByte();
    if tag != Some(0x02) {
      return None;
    }
    var expLength := dis.ReadUnsignedByte();
    if expLength.None? {
      return None;
    }
    var exponent := new byte[expLength.value as nat];
    var expbytes := dis.Read(exponent);
    if expbytes != exponent.Length {
      return None;
    }
    assert exponent[..] == dis.buf[t + 2..t + 2 + exponent.Length];
    return Some(exponent[..]);
  }

  /** The modulus and exponent part of asn1GetPublicKey, from the modulus tag on. */
  method ReadFields(dis: DataInput) returns (r: Option<(seq<byte>, seq<byte>)>)
    requires dis.Valid()
    modifies dis
    ensures r == ParseFields(dis.buf, old(dis.pos))
  {
    var tag := dis.ReadUnsignedByte();
    if tag != Some(0x02) {
      return None;
    }
    var modLength := ReadLength(dis);
    if modLength.None? {
      return None;
    }
    var q := dis.pos;
    var modulus := new byte[modLength.value.1];
    var modbytes := dis.Read(modulus);
    if modbytes != modulus.Length {
      return None;
    }
    assert modulus[..] == dis.buf[q..q + modulus.Length];
    var exponent := ReadExponent(dis);
    if exponent.None? {
      return None;
    }
    return Some((modulus[..], exponent.value));
  }

  /** asn1GetPublicKey: the modulus and exponent of a well-formed blob, `None` on every
      malformed, truncated or unsupported input. */
  method Asn1GetPublicKey(blob: seq<byte>) returns (r: Option<RsaPublicKey>)
    ensures r == ParsePublicKey(blob)
  {
    var dis := new DataInput(blob);
    var tag := dis.ReadUnsignedByte();
    if tag != Some(0x30) {
      return None;
    }
    var outer := ReadLength(dis);
    if outer.None? {
      return None;
    }
    var (form, datacount) := outer.value;
    if form as int - 0x80 + 2 + datacount != |blob| {
      return None;
    }
    var fields := ReadFields(dis);
    if fields.None? {
      return None;
    }
    var (modulus, exponent) := fields.value;
    return Some(RsaPublicKey(Unsigned(modulus), Unsigned(exponent)));
  }

  /** The two INTEGERs publicKeyToASN1 writes inside the SEQUENCE: `m` with a 0x81
      length, `x` with a one-byte short length; `(byte)` keeps the low 8 bits. */
  function IntegerPair(m: seq<byte>, x: seq<byte>): seq<byte>
  {
    [0x02 as byte, 0x81, (|m| % 256) as byte] + m + [0x02 as byte, (|x| % 256) as byte] + x
  }

  /** The SEQUENCE content publicKeyToASN1 writes for the key (n, e). */
  function EncodeInner(n: nat, e: nat): seq<byte>
  {
    IntegerPair(ToByteArray(n), ToByteArray(e))
  }

  /** Capacity of the two scratch ByteBuffers. */
  const BUFFER_CAPACITY: nat := 1024

  /** A SEQUENCE header with a 0x81 length in front of `content`; `(byte)` keeps the low 8 bits. */
  function WrapSequence(content: seq<byte>): seq<byte>
  {
    [0x30 as byte, 0x81, (|content| % 256) as byte] + content
  }

  /** publicKeyToASN1 as written; `None` is the BufferOverflowException of the 1024-byte
      scratch buffers. */
  function EncodePublicKey(n: nat, e: nat): Option<seq<byte>>
  {
    var inner := EncodeInner(n, e);
    if |inner| + 3 > BUFFER_CAPACITY then None else Some(WrapSequence(inner))
  }

  /** publicKeyToASN1: successive puts into an inner and an outer 1024-byte ByteBuffer. */
  method PublicKeyToAsn1(n: nat, e: nat) returns (r: Option<seq<byte>>)
    ensures r == EncodePublicKey(n, e)
  {
    var modulus := ToByteArray(n);
    var pubexp := ToByteArray(e);
    var inner := new ByteBuffer.Allocate(BUFFER_CAPACITY);
    var ok := WriteIntegerPair(inner, modulus, pubexp);
    if !ok {
      return None;
    }
    inner.Flip();
    r := WriteSequence(inner);
  }

  /** The puts of publicKeyToASN1 that fill the inner buffer; false is an overflow. */
  method WriteIntegerPair(inner: ByteBuffer, modulus: seq<byte>, pubexp: seq<byte>) returns (ok: bool)
    requires inner.Valid() && inner.position == 0 && inner.limit == inner.data.Length
    modifies inner, inner.data
    ensures inner.Valid() && inner.limit == old(inner.limit)
    ensures ok <==> |IntegerPair(modulus, pubexp)| <= inner.limit
    ensures ok ==> inner.data[..inner.position] == IntegerPair(modulus, pubexp)
  {
    ok := WriteModulus(inner, modulus);
    if !ok {
      return;
    }
    ok := WriteExponent(inner, pubexp);
  }

  /** `put(2); put(0x81); put((byte) m.length); put(m)`. */
  method WriteModulus(buf: ByteBuffer, m: seq<byte>) returns (ok: bool)
    requires buf.Valid()
    modifies buf, buf.data
    ensures buf.Valid() && buf.limit == old(buf.limit)
    ensures ok <==> 3 + |m| <= buf.limit - old(buf.position)
    ensures ok ==> buf.data[..buf.position] == old(buf.data[..buf.position]) + [0x02 as byte, 0x81, (|m| % 256) as byte] + m
  {
    ghost var start := buf.data[..buf.position];
    ok := buf.Put(2);
    if !ok {
      return;
    }
    ok := buf.Put(0x81);
    if !ok {
      return;
    }
    ok := buf.Put((|m| % 256) as byte);
    if !ok {
      return;
    }
    assert buf.data[..buf.position] == start + [0x02 as byte, 0x81, (|m| % 256) as byte];
    ok := buf.PutBytes(m);
  }

  /** `put(2); put((byte) x.length); put(x)`. */
  method WriteExponent(buf: ByteBuffer, x: seq<byte>) returns (ok: bool)
    requires buf.Valid()
    modifies buf, buf.data
    ensures buf.Valid() && buf.limit == old(buf.limit)
    ensures ok <==> 2 + |x| <= buf.limit - old(buf.position)
    ensures ok ==> buf.data[..buf.position] == old(buf.data[..buf.position]) + [0x02 as byte, (|x| % 256) as byte] + x
  {
    ghost var start := buf.data[..buf.position];
    ok := buf.Put(2);
    if !ok {
      return;
    }
    ok := buf.Put((|x| % 256) as byte);
    if !ok {
      return;
    }
    assert buf.data[..buf.position] == start + [0x02 as byte, (|x| % 256) as byte];
    ok := buf.PutBytes(x);
  }

  /** The second half of publicKeyToASN1: the SEQUENCE header and the flipped inner buffer
      go into a fresh 1024-byte buffer, whose contents are then copied out. */
  method WriteSequence(inner: ByteBuffer) returns (r: Option<seq<byte>>)
    requires inner.Valid() && inner.position == 0
    modifies inner
    ensures var content := old(inner.data[..inner.limit]);
            r == if |content| + 3 > BUFFER_CAPACITY then None else Some(WrapSequence(content))
  {
    ghost var content := inner.data[..inner.limit];
    var outer := new ByteBuffer.Allocate(BUFFER_CAPACITY);
    var ok := outer.Put(0x30);
    ok := outer.Put(0x81);
    ok := outer.Put((inner.limit % 256) as byte);
    assert outer.data[..outer.position] == WrapSequence(content)[..3];
    ok := outer.PutBuffer(inner);
    if !ok {
      return None;
    }
    assert outer.data[..outer.position] == WrapSequence(content);
    outer.Flip();
    var asn := new byte[outer.limit];
    ok := outer.Get(asn);
    return Some(asn[..]);
  }

  /** The exponent INTEGER 0x02 |x| x written at b[t] reads back as the value of x. */
  lemma ExponentReadBack(b: seq<byte>, x: seq<byte>, t: nat)
    requires x != [] && t + 2 + |x| <= |b|
    requires b[t] == 0x02 && b[t + 1] as nat == |x| && b[t + 2..t + 2 + |x|] == x
    ensures ParseExponent(b, t) == Some(x)
  {
  }

  /** Where the header bytes, m and x sit inside IntegerPair(m, x). */
  lemma IntegerPairLayout(m: seq<byte>, x: seq<byte>)
    ensures var pair := IntegerPair(m, x);
      |pair| == 5 + |m| + |x| &&
      pair[0] == 0x02 && pair[1] == 0x81 && pair[2] as int == |m| % 256 &&
      pair[3..3 + |m|] == m &&
      pair[3 + |m|] == 0x02 && pair[4 + |m|] as int == |x| % 256 &&
      pair[5 + |m|..] == x
  {
  }

  /** A slice of a slice of b is a slice of b. */
  lemma SliceOfSlice(b: seq<byte>, lo: nat, hi: nat, i: nat, j: nat)
    requires lo <= hi <= |b| && i <= j <= hi - lo
    ensures b[lo..hi][i..j] == b[lo + i..lo + j]
  {
    forall k | 0 <= k < j - i
      ensures b[lo..hi][i..j][k] == b[lo + i..lo + j][k]
    {
    }
  }

  /** The bytes of IntegerPair(m, x) written at b[p], position by position. */
  lemma PairBytesAt(b: seq<byte>, m: seq<byte>, x: seq<byte>, p: nat)
    requires p + |IntegerPair(m, x)| <= |b| && b[p..p + |IntegerPair(m, x)|] == IntegerPair(m, x)
    ensures b[p] == 0x02 && b[p + 1] == 0x81 && b[p + 2] as int == |m| % 256
    ensures b[p + 3..p + 3 + |m|] == m
    ensures b[p + 3 + |m|] == 0x02 && b[p + 4 + |m|] as int == |x| % 256
    ensures b[p + 5 + |m|..p + 5 + |m| + |x|] == x
  {
    var n := |IntegerPair(m, x)|;
    var w := b[p..p + n];
    IntegerPairLayout(m, x);
    assert b[p] == w[0] && b[p + 1] == w[1] && b[p + 2] == w[2];
    assert b[p + 3 + |m|] == w[3 + |m|] && b[p + 4 + |m|] == w[4 + |m|];
    SliceOfSlice(b, p, p + n, 3, 3 + |m|);
    SliceOfSlice(b, p, p + n, 5 + |m|, n);
    assert w[5 + |m|..] == w[5 + |m|..n];
  }

  /** The modulus INTEGER 0x02 0x81 |m| m and the exponent INTEGER 0x02 |x| x, one after
      the other from b[p], read back as the values of m and x. */
  lemma FieldsReadBack(b: seq<byte>, m: seq<byte>, x: seq<byte>, p: nat)
    requires x != [] && p + 5 + |m| + |x| <= |b|
    requires b[p] == 0x02 && b[p + 1] == 0x81 && b[p + 2] as int == |m| && b[p + 3..p + 3 + |m|] == m
    requires b[p + 3 + |m|] == 0x02 && b[p + 4 + |m|] as int == |x| && b[p + 5 + |m|..p + 5 + |m| + |x|] == x
    ensures ParseFields(b, p) == Some((m, x))
  {
    var t := p + 3 + |m|;
    assert ParseLength(b, p + 1) == Some((0x81 as byte, |m|, p + 3));
    ExponentReadBack(b, x, t);
    assert FieldFits(b, p + 3, |m|);
  }

  /** A SEQUENCE with a 0x81 length around two INTEGERs reads back as their unsigned values,
      whatever follows the exponent inside the declared length. */
  lemma ParseIntegerPair(m: seq<byte>, x: seq<byte>, trailing: seq<byte>)
    requires x != [] && |IntegerPair(m, x)| + |trailing| <= 255
    ensures ParsePublicKey(WrapSequence(IntegerPair(m, x) + trailing))
         == Some(RsaPublicKey(Unsigned(m), Unsigned(x)))
  {
    var pair := IntegerPair(m, x);
    var content := pair + trailing;
    var b := WrapSequence(content);
    WrappedBytes(content);
    SliceOfSlice(b, 3, |b|, 0, |pair|);
    assert content[..|pair|] == pair;
    PairBytesAt(b, m, x, 3);
    FieldsReadBack(b, m, x, 3);
  }

  /** The SEQUENCE header in front of content of at most 255 bytes reads back as its length. */
  lemma WrappedBytes(content: seq<byte>)
    requires |content| <= 255
    ensures var b := WrapSequence(content);
      |b| == 3 + |content| && b[0] == 0x30 && b[3..] == content &&
      ParseLength(b, 1) == Some((0x81 as byte, |content|, 3))
  {
    var b := WrapSequence(content);
    assert b[1] == 0x81 && b[2] as int == |content|;
  }

  /** Bytes after the exponent and inside the declared SEQUENCE are read past: only the
      outer length is checked against the blob. */
  lemma DecodeIgnoresTrailing(n: nat, e: nat, trailing: seq<byte>)
    requires |EncodeInner(n, e)| + |trailing| <= 255
    ensures ParsePublicKey(WrapSequence(EncodeInner(n, e) + trailing)) == Some(RsaPublicKey(n, e))
  {
    ParseIntegerPair(ToByteArray(n), ToByteArray(e), trailing);
  }

  /** asn1GetPublicKey reads back what publicKeyToASN1 writes, when the SEQUENCE content
      fits in its one length byte. */
  lemma EncodeDecode(n: nat, e: nat)
    requires |EncodeInner(n, e)| <= 255
    ensures EncodePublicKey(n, e) == Some(WrapSequence(EncodeInner(n, e)))
    ensures ParsePublicKey(EncodePublicKey(n, e).value) == Some(RsaPublicKey(n, e))
  {
    DecodeIgnoresTrailing(n, e, []);
    assert EncodeInner(n, e) + [] == EncodeInner(n, e);
  }

  /** The reject paths of asn1GetPublicKey that concern the SEQUENCE header. */
  lemma ParseRejectsHeader(b: seq<byte>)
    ensures b == [] || b[0] != 0x30 ==> ParsePublicKey(b).None?
    ensures |b| < 2 || (b[1] != 0x81 && b[1] != 0x82) ==> ParsePublicKey(b).None?
    ensures |b| >= 3 && b[1] == 0x81 && |b| != 3 + b[2] as int ==> ParsePublicKey(b).None?
    ensures |b| >= 4 && b[1] == 0x82 && |b| != 4 + b[2] as int * 256 + b[3] as int ==> ParsePublicKey(b).None?
  {
  }

  /** The reject paths of asn1GetPublicKey after a well-formed header ending at p. */
  lemma ParseRejectsFields(b: seq<byte>, p: nat)
    requires b != [] && b[0] == 0x30 && ParseLength(b, 1).Some? && ParseLength(b, 1).value.2 == p
    ensures p >= |b| || b[p] != 0x02 ==> ParsePublicKey(b).None?
    ensures ParseLength(b, p + 1).None? ==> ParsePublicKey(b).None?
    ensures var modField := ParseLength(b, p + 1);
            modField.Some? && !FieldFits(b, modField.value.2, modField.value.1) ==> ParsePublicKey(b).None?
  {
  }

  /** The reject paths of asn1GetPublicKey once the header and the modulus, ending at t,
      have been read, and what it returns when none is taken. */
  lemma ParseRejectsExponent(b: seq<byte>, t: nat)
    requires b != [] && b[0] == 0x30 && ParseLength(b, 1).Some?
    requires var (form, seqLen, p) := ParseLength(b, 1).value;
             form as int - 0x80 + 2 + seqLen == |b| && p < |b| && b[p] == 0x02 &&
             ParseLength(b, p + 1).Some? &&
             var (_, modLen, q) := ParseLength(b, p + 1).value;
             FieldFits(b, q, modLen) && t == q + modLen
    ensures t >= |b| || b[t] != 0x02 ==> ParsePublicKey(b).None?
    ensures t + 1 >= |b| ==> ParsePublicKey(b).None?
    ensures t + 1 < |b| && !FieldFits(b, t + 2, b[t + 1] as nat) ==> ParsePublicKey(b).None?
    ensures t + 1 < |b| && b[t] == 0x02 && FieldFits(b, t + 2, b[t + 1] as nat) ==>
              var q := ParseLength(b, ParseLength(b, 1).value.2 + 1).value.2;
              ParsePublicKey(b) == Some(RsaPublicKey(Unsigned(b[q..t]), Unsigned(b[t + 2..t + 2 + b[t + 1] as nat])))
  {
  }

  /** Every proper prefix of an accepted blob is rejected: a truncated key never parses. */
  lemma ParseRejectsTruncated(b: seq<byte>, k: nat)
    requires ParsePublicKey(b).Some? && k < |b|
    ensures ParsePublicKey(b[..k]).None?
  {
    var c := b[..k];
    if c != [] && c[0] == 0x30 && ParseLength(c, 1).Some? {
      assert ParseLength(c, 1) == ParseLength(b, 1);
    }
  }

  /** A SEQUENCE whose content is longer than one length byte can say is rejected when read
      back: the declared length is the content's length cut to 8 bits. */
  lemma OversizedSequenceRejected(content: seq<byte>)
    requires 255 < |content|
    ensures ParsePublicKey(WrapSequence(content)).None?
  {
    var b := WrapSequence(content);
    assert ParseLength(b, 1) == Some((0x81 as byte, |content| % 256, 3));
  }

  /** toByteArray() of a value with k magnitude bytes has k bytes, or k + 1 with the sign byte. */
  lemma ToByteArrayLength(n: nat, k: nat)
    requires k >= 1 && Pow256(k - 1) <= n < Pow256(k)
    ensures k <= |ToByteArray(n)| <= k + 1
  {
    MagnitudeLength(n, k);
  }

  /** The exponent 65537 = 0x010001 takes three bytes in toByteArray(). */
  lemma ExponentBytes()
    ensures |ToByteArray(65537)| == 3
  {
    assert Pow256(2) == 65536 && Pow256(3) == 16777216 by {
      assert Pow256(1) == 256;
    }
    ToByteArrayLength(65537, 3);
  }

  /** publicKeyToASN1 as written, on a modulus of k bytes for 248 <= k <= 1012 (from 1977
      to 8096 bits, the common 2048-bit keys among them) with the usual exponent 65537:
      the blob is produced without complaint and asn1GetPublicKey refuses it. */
  lemma LongModulusNotReadBack(n: nat, k: nat)
    requires 248 <= k <= 1012 && Pow256(k - 1) <= n < Pow256(k)
    ensures EncodePublicKey(n, 65537).Some?
    ensures ParsePublicKey(EncodePublicKey(n, 65537).value).None?
  {
    ToByteArrayLength(n, k);
    ExponentBytes();
    OversizedSequenceRejected(EncodeInner(n, 65537));
  }

  /** publicKeyToASN1 as evidently intended: a key whose SEQUENCE content does not fit the
      one-byte length is refused instead of written with a truncated length. */
  function EncodePublicKeyChecked(n: nat, e: nat): (r: Option<seq<byte>>)
    ensures r.Some? <==> |EncodeInner(n, e)| <= 255
    ensures r.Some? ==> ParsePublicKey(r.value) == Some(RsaPublicKey(n, e))
  {
    var inner := EncodeInner(n, e);
    if |inner| > 255 then None
    else
      EncodeDecode(n, e);
      Some(WrapSequence(inner))
  }
}
