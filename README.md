# Tor client core: byte codecs and the stream state machine, in Dafny

This project models two parts of a Java Tor client library and proves properties of them.

- **`TorCrypto`** (`tor_crypto.dfy`) covers the following:
  - conversion between unsigned big integers and big-endian bytes (`BNtoByte`, `byteToBN`, and `BigInteger.toByteArray` for non-negative values);
  - the KDF-TOR key derivation of section 5.2.1 of tor-spec.txt (`torKDF`);
  - the layout of the hybrid onion-skin encryption of section 0.4 of tor-spec.txt (`hybridEncrypt`);
  - the hand-written reader and writer of the PKCS#1 `RSAPublicKey` blob, `SEQUENCE { INTEGER modulus, INTEGER exponent }`, from appendix A.1.1 of RFC 8017 (`asn1GetPublicKey`, `publicKeyToASN1`). Lengths use the `0x81`/`0x82` long forms of section 8.1.3 of ITU-T X.690.
- **`TorStreams`** (`tor_stream.dfy`) models `TorStream`, one application byte stream over a circuit:
  - its states: CONNECTING, READY, DESTROYED;
  - its receive buffer;
  - the stream-level SENDME window of section 7.4 of tor-spec.txt (start 500, threshold 450, increment 50);
  - the splitting of outgoing data into 498-byte DATA payloads;
  - the idempotent `destroy`, which sends END with reason DONE (6).
- **`JavaIo`** (`java_io.dfy`) gives the Java library objects the codec works through: `DataInputStream` over `ByteArrayInputStream` as a read cursor, and `ByteBuffer` as a fixed array with position and limit. A Java exception is a `None` or `false` result.
- **`Bytes`** (`bytes.dfy`) holds the byte type, `Option`, and the unsigned big-endian value `Unsigned` with its lemmas.

SHA-1, RSA-OAEP and AES-CTR are function parameters. `SHA-1` returns a 20-byte `Digest`. The lemmas state, as preconditions, the length facts they need: a 128-byte RSA block and length-preserving CTR. The random AES key is a parameter. The circuit becomes a log of the relay cells sent to it plus its stream-id set. The listener becomes a log of the callbacks it received.

Behaviour the model keeps as the code has it:
- `torKDF` checks the secret length only with a Java `assert` (src/main/java/tor/TorCrypto.java:113). Run without `-ea`, a secret of another length is hashed as given; with `-ea`, it throws `AssertionError`. The model makes `|secret| == 128` a precondition.
- `torKDF` allocates `ceil(length / 20) * 20` bytes and returns all of them (src/main/java/tor/TorCrypto.java:110, 129). The output is rounded up to whole 20-byte blocks, not cut to `length`.
- `_putRecved` sends a SENDME only when the decremented window is `< 450` (src/main/java/tor/TorStream.java:104). Section 7.4 of tor-spec.txt sends one for every 50 DATA cells received, that is already at a window of 450. In the code, the first SENDME of a fresh stream goes out on the 51st delivery, and one every 50 after that.
- `notifyConnect` calls `setState(READY)` with no guard (src/main/java/tor/TorStream.java:128-132), so a DESTROYED stream becomes READY again and DESTROYED is not terminal.
- `publicKeyToASN1` writes `(byte) modulus.length` and `(byte) inner.limit()` (src/main/java/tor/TorCrypto.java:331, 343) without checking that they fit in one byte. A key too long for those lengths gets a truncated length rather than an error (see Findings).
- `hybridEncrypt` uses a single RSA block only for inputs shorter than 86 bytes (src/main/java/tor/TorCrypto.java:143), where section 0.4 of tor-spec.txt allows up to 86. An 86-byte input therefore takes the hybrid path, 128 + 16 bytes. A relay decides by ciphertext length, so `HybridDecrypt` still recovers it.

## Model

| member | source | states |
|---|---|---|
| `TorCrypto.Magnitude` | src/main/java/tor/TorCrypto.java:67-75 | the minimal unsigned big-endian bytes of n: value n, empty exactly for 0, never a leading zero byte |
| `TorCrypto.ToByteArray` | src/main/java/tor/TorCrypto.java:325-326 | `toByteArray` of n ≥ 0 is non-empty, has the sign bit clear, reads back as n both signed and unsigned, and is the shortest such encoding (a leading 0x00 only before a byte with the top bit set, or for 0) |
| `TorCrypto.BNtoByte` | src/main/java/tor/TorCrypto.java:67-75 | the result reads back as n, never starts with 0x00, and is empty exactly when n = 0 |
| `TorCrypto.ByteToBN` | src/main/java/tor/TorCrypto.java:85-90 | the value is the unsigned big-endian value of b, hence non-negative and below 256^\|b\| |
| `TorCrypto.BNtoByteRoundTrip` | src/main/java/tor/TorCrypto.java:67-90 | byteToBN(BNtoByte(n)) = n for every n ≥ 0 |
| `TorCrypto.ByteToBNRoundTrip` | src/main/java/tor/TorCrypto.java:67-90 | BNtoByte(byteToBN(b)) is b with its leading zero bytes removed |
| `TorCrypto.ByteToBNLeadingZeros` | src/main/java/tor/TorCrypto.java:85-90 | leading zero bytes do not change byteToBN |
| `TorCrypto.KdfStream` | src/main/java/tor/TorCrypto.java:119-128 | k blocks of key stream are exactly 20k bytes |
| `TorCrypto.TorKdf` | src/main/java/tor/TorCrypto.java:109-130 | with a 128-byte secret, fails (negative array size) exactly for length ≤ -20; otherwise returns the first ceil(length/20) blocks SHA1(secret ++ [(byte) i]), in order |
| `TorCrypto.CopyDigest` | src/main/java/tor/TorCrypto.java:127 | the 20 digest bytes land right after the bytes already written, which are left as they were, and the bytes after the digest are unchanged |
| `TorCrypto.KdfStreamBlock` | src/main/java/tor/TorCrypto.java:119-128 | bytes [20i, 20i+20) of the output are SHA1(secret ++ [i mod 256]) |
| `TorCrypto.KdfStreamPrefix` | src/main/java/tor/TorCrypto.java:119-128 | the stream of j blocks is a prefix of the stream of k ≥ j blocks |
| `TorCrypto.KdfSizeRounds` | src/main/java/tor/TorCrypto.java:110 | the output size is a multiple of 20, at least length and below length + 20; it is not cut to length |
| `TorCrypto.KdfOutputPrefix` | src/main/java/tor/TorCrypto.java:109-130 | torKDF for a smaller length is a prefix of torKDF for a larger one |
| `TorCrypto.HybridEncrypt` | src/main/java/tor/TorCrypto.java:139-170 | below 86 input bytes the output is RSA(in); otherwise it is RSA(key ++ in[..70]) ++ AES-CTR(key, zero IV, in[70..]), where the RSA input is exactly 86 bytes and its last 70 bytes followed by the CTR plaintext give back the input |
| `TorCrypto.HybridEncryptLength` | src/main/java/tor/TorCrypto.java:139-170 | given 128-byte RSA blocks and length-preserving CTR, the output is 128 bytes below 86 input bytes, otherwise 128 + \|in\| - 70 |
| `TorCrypto.HybridEncryptDecrypt` | src/main/java/tor/TorCrypto.java:139-170 | below 86 bytes the output is RSA(in); otherwise the RSA input is key ++ in[0..70] (exactly 86 bytes) and the rest is in[70..] under AES-CTR with that key and the zero IV; the relay-side decryption recovers the input |
| `TorCrypto.ParseLength` | src/main/java/tor/TorCrypto.java:245-256 | a length is accepted exactly in the 0x81 form (value b[p+1]) or the 0x82 form (value b[p+1]·256 + b[p+2], big-endian), with all its bytes present; the position after it is p + 2 or p + 3 |
| `TorCrypto.ReadLength` | src/main/java/tor/TorCrypto.java:270-281 | reading a length through the stream cursor agrees with ParseLength and leaves the cursor after it |
| `TorCrypto.ReadExponent` | src/main/java/tor/TorCrypto.java:294-302 | reading the exponent INTEGER through the cursor yields exactly what ParseExponent describes: tag 0x02, one length byte, then that many bytes, or None when any is missing |
| `TorCrypto.ReadFields` | src/main/java/tor/TorCrypto.java:267-302 | reading the modulus and exponent INTEGERs through the cursor yields exactly what ParseFields describes, including the short-read rejects |
| `TorCrypto.Asn1GetPublicKey` | src/main/java/tor/TorCrypto.java:231-322 | the cursor-driven reader returns exactly what ParsePublicKey describes: the modulus and exponent, or None on any reject path or short read |
| `TorCrypto.ParseRejectsHeader` | src/main/java/tor/TorCrypto.java:242-261 | None when the first byte is not 0x30, when the length form is neither 0x81 nor 0x82 (short forms included), or when (form - 0x80) + 2 + declared length differs from the blob size |
| `TorCrypto.ParseRejectsFields` | src/main/java/tor/TorCrypto.java:267-288 | after a valid header: None when the modulus INTEGER tag is missing, its length is malformed, or its bytes are truncated |
| `TorCrypto.ParseRejectsExponent` | src/main/java/tor/TorCrypto.java:294-308 | after the modulus: None when the exponent tag or length byte is missing or its bytes are truncated; otherwise the key is the unsigned values of the two fields |
| `TorCrypto.ParseRejectsTruncated` | src/main/java/tor/TorCrypto.java:258-261 | every proper prefix of an accepted blob is rejected |
| `TorCrypto.WriteIntegerPair` | src/main/java/tor/TorCrypto.java:328-338 | the inner buffer holds 0x02 0x81 \|m\| ++ m ++ 0x02 \|x\| ++ x, or the puts overflow exactly when that does not fit |
| `TorCrypto.WriteModulus` | src/main/java/tor/TorCrypto.java:329-332 | the buffer gains 0x02 0x81 (byte)\|m\| ++ m after what it held, or the puts overflow exactly when those 3 + \|m\| bytes do not fit |
| `TorCrypto.WriteExponent` | src/main/java/tor/TorCrypto.java:334-337 | the buffer gains 0x02 (byte)\|x\| ++ x after what it held, or the puts overflow exactly when those 2 + \|x\| bytes do not fit |
| `TorCrypto.WriteSequence` | src/main/java/tor/TorCrypto.java:340-349 | the output is 0x30 0x81 (byte)L ++ the L bytes of the flipped inner buffer, or None exactly when they overflow the 1024-byte outer buffer |
| `TorCrypto.PublicKeyToAsn1` | src/main/java/tor/TorCrypto.java:324-350 | the output is 0x30 0x81 L ++ 0x02 0x81 \|m\| ++ m ++ 0x02 \|x\| ++ x with m, x the toByteArray of modulus and exponent and L the low 8 bits of 5 + \|m\| + \|x\|; None when the 1024-byte buffers overflow |
| `TorCrypto.ParseIntegerPair` | src/main/java/tor/TorCrypto.java:284-308 | a 0x81 SEQUENCE around the two INTEGERs reads back as their unsigned values |
| `TorCrypto.DecodeIgnoresTrailing` | src/main/java/tor/TorCrypto.java:258-302 | bytes after the exponent but inside the declared SEQUENCE are accepted and ignored |
| `TorCrypto.EncodeDecode` | src/main/java/tor/TorCrypto.java:324-350 | when L ≤ 255, asn1GetPublicKey of publicKeyToASN1(n, e) is (n, e) |
| `TorCrypto.OversizedSequenceRejected` | src/main/java/tor/TorCrypto.java:343 | a SEQUENCE whose content exceeds 255 bytes, written with the truncated 0x81 length, is rejected by the reader |
| `TorCrypto.ToByteArrayLength` | src/main/java/tor/TorCrypto.java:325-326 | toByteArray of a value with k magnitude bytes has k bytes, or k + 1 with a sign byte |
| `TorCrypto.LongModulusNotReadBack` | src/main/java/tor/TorCrypto.java:331-343 | for every modulus of 248 to 1012 bytes (2048-bit keys among them) and exponent 65537, publicKeyToASN1 produces a blob without error that asn1GetPublicKey rejects |
| `TorCrypto.EncodePublicKeyChecked` | src/main/java/tor/TorCrypto.java:324-350 | the corrected encoder refuses exactly the keys whose content exceeds 255 bytes, and everything it produces reads back as (n, e) |
| `TorStreams.ToShort` | src/main/java/tor/TorStream.java:85 | `(short) streamId` is in [-32768, 32767] and equal to streamId modulo 65536 |
| `TorStreams.ChunksConcat` | src/main/java/tor/TorStream.java:82-86 | the DATA payloads of send(b), concatenated in order, are b |
| `TorStreams.ChunksShape` | src/main/java/tor/TorStream.java:82-86 | send(b) produces ceil(\|b\|/498) payloads, each of 1 to 498 bytes, all but the last exactly 498, concatenating to b; none for empty b |
| `TorStreams.DataCellsCarryChunks` | src/main/java/tor/TorStream.java:82-86 | send(b) hands the circuit one DATA cell per chunk of b, in order, each with the chunk as payload, not a control cell, and the stream id cut to a signed 16-bit value |
| `TorStreams.SendOf1200Bytes` | src/main/java/tor/TorStream.java:82-86 | 1200 bytes go out as payloads of 498, 498 and 204 bytes |
| `TorStreams.FreshStreamDeliveries` | src/main/java/tor/TorStream.java:103-112 | from window 500, after n ≥ 1 deliveries the window is 499 - (n-1) mod 50 and (n-1)/50 SENDMEs have been sent, the first on delivery 51 |
| `TorStreams.FreshStreamWindowRange` | src/main/java/tor/TorStream.java:19-20 | a fresh stream's window stays in [450, 500], and in [450, 499] after any delivery |
| `TorStreams.DeliveredStreamWindow` | src/main/java/tor/TorStream.java:102-112 | a stream object that has had data delivered has its window in [450, 499] and has sent (delivered - 1)/50 SENDMEs |
| `TorStreams.TorStream.constructor` | src/main/java/tor/TorStream.java:13-26 | a new stream is CONNECTING, with an empty buffer and window 500 |
| `TorStreams.TorStream.SetState` | src/main/java/tor/TorStream.java:28-33 | the state becomes the given one, with no guard |
| `TorStreams.TorStream.Recv` | src/main/java/tor/TorStream.java:55-70 | fails on an empty DESTROYED stream and leaves the buffer alone; otherwise returns and removes the first min(n, \|buf\|) bytes, or all of them for negative n |
| `TorStreams.TorStream.Send` | src/main/java/tor/TorStream.java:78-87 | on a DESTROYED stream, fails and logs nothing; in CONNECTING or READY, appends the DATA cells of b tagged with (short) streamId, in order |
| `TorStreams.TorStream.Destroy` | src/main/java/tor/TorStream.java:89-95 | from a live state: DESTROYED, one END cell with payload [6], and streamId removed from the circuit's stream set; when already DESTROYED: nothing changes |
| `TorStreams.TorStream.PutRecved` | src/main/java/tor/TorStream.java:102-120 | the window drops by one; when that is below 450, one SENDME with a null payload is logged and 50 added; b is appended to the tail of the buffer; the listener hears DataArrived; the window invariant is kept |
| `TorStreams.TorStream.NotifyDisconnect` | src/main/java/tor/TorStream.java:122-126 | the stream becomes DESTROYED and the listener, if any, hears Disconnected once |
| `TorStreams.TorStream.NotifyConnect` | src/main/java/tor/TorStream.java:128-132 | the stream becomes READY from any state and the listener, if any, hears Connected once |

## Left out

- SHA-1, RSA-OAEP, AES-CTR and `SecureRandom` are provider calls. They are parameters here, constrained only by the length and inverse facts the lemmas assume.
- `KeyFactory.generatePublic` is not modelled. `Asn1GetPublicKey` returns the (modulus, exponent) pair, so a key the factory would refuse, such as a zero modulus, still parses in the model.
- `asn1GetPrivateKey`, `asn1GetPrivateKeyPublic` and `pubKeyFromPrivate` are not modelled. They are thin wrappers over BouncyCastle's `ASN1InputStream` and `KeyFactory`, which are not part of this model.
- `getSHA1`, the empty constructor and the unused constants `DH_G`, `DH_P`, `DH_SEC_LEN` are not modelled.
- TorCrypto.TorKdf: lengths are unbounded integers. The Java `int` overflow of the size computation for lengths above 2^31 - 8 (the first to wrap is 2^31 - 7, whose size 107374183 · 20 wraps to a negative int and throws NegativeArraySizeException) is not modelled.
- TorCrypto.BNtoByte: takes only non-negative values. The Java method also accepts negative BigIntegers, which the callers never pass.
- TorStreams.TorStream.Recv: a blocking call is modelled only when it returns at once, because the buffer is non-empty or the stream is destroyed. Waiting is monitor concurrency, and so is `waitForState`.
- `synchronized`, `wait` and `notifyAll` are dropped. Every operation runs as one atomic step.
- `ByteFifo` is not part of this model. Its 4096-byte capacity is not modelled, and the buffer is an unbounded byte sequence. `get(n)` is assumed to return min(n, available) bytes, and everything for a negative n, as the doc comment's -1 says.
- `TorCircuit` is not part of this model. Its `send` always succeeds, so the `IOException` that `_putRecved` catches is not modelled. The numeric relay command codes live in `TorCircuit` and are kept symbolic.
- Listener implementations are not modelled: only the callback each one receives is recorded. `failure` is never called by `TorStream`.
- Exception printing (`printStackTrace`) is not modelled.

## Findings

| source | as written | input that shows it | evidently intended | confidence | as-written member | corrected member |
|---|---|---|---|---|---|---|
| src/main/java/tor/TorCrypto.java:331-343 | `(byte)` keeps only the low 8 bits of the modulus and SEQUENCE lengths, so any SEQUENCE content over 255 bytes is written with a wrong 0x81 length and no error | a 2048-bit modulus with exponent 65537: toByteArray gives 257 + 3 bytes, the content is 265 bytes, its length byte is 9, and asn1GetPublicKey rejects the blob | refuse a key whose lengths do not fit one byte instead of writing a corrupt blob | medium; not executed | `TorCrypto.LongModulusNotReadBack` | `TorCrypto.EncodePublicKeyChecked` |
