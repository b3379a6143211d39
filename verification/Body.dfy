/**
 The body of a container: padded plaintext, STREAM-encrypted, then framed in HMAC blocks; the save and
 open paths of vault.rs and sealed.rs.
 */
module Body {
  import opened Bytes
  import opened Primitives
  import opened Pad
  import Stream
  import BlockStream

  /** The keys one body is written under: the data key and the two per-save random seeds. */
  datatype BodyKeys = BodyKeys(dataKey: Bytes, masterSeed: Bytes, noncePrefix: Bytes) {
    function Mac(): BlockStream.Keys { BlockStream.Keys(dataKey, masterSeed) }

    function Aead(s: Suite): Bytes { Stream.PayloadKey(s, dataKey, noncePrefix) }
  }

  /** Plaintexts whose ciphertext is short enough to be counted in 64-bit words. */
  const MAX_PLAINTEXT := ISIZE_MAX + 1

  function Padded(mode: PadMode, pt: Bytes): Bytes {
    pt + Zeros(if mode.PaddedLen(|pt|) >= |pt| then mode.PaddedLen(|pt|) - |pt| else 0)
  }

  function SealedBody(s: Suite, k: BodyKeys, pt: Bytes): Bytes {
    BlockStream.Framed(s, k.Mac(), Stream.Sealed(s, k.Aead(s), pt))
  }

  function OpenedBody(s: Suite, k: BodyKeys, body: Bytes): Result<Bytes> {
    var ct :- BlockStream.ReadFrom(s, k.Mac(), body, 0);
    Stream.Decrypted(s, k.Aead(s), ct)
  }

  method SealBody(s: Suite, k: BodyKeys, plaintext: Bytes) returns (r: Result<Bytes>)
    requires |plaintext| <= MAX_PLAINTEXT
    ensures r == Ok(SealedBody(s, k, plaintext))
  {
    var ct := Stream.Encrypt(s, k.dataKey, k.noncePrefix, plaintext);
    match ct
    case Err(e) => return Err(e);
    case Ok(v) =>
      var framed := BlockStream.Frame(s, k.Mac(), v);
      r := Ok(framed);
  }

  method OpenBody(s: Suite, k: BodyKeys, body: Bytes) returns (r: Result<Bytes>)
    ensures r == OpenedBody(s, k, body)
  {
    var ct := BlockStream.Read(s, k.Mac(), body);
    if ct.Err? {
      return Err(ct.error);
    }
    r := Stream.Decrypt(s, k.dataKey, k.noncePrefix, ct.value);
  }

  lemma PaddedFits(mode: PadMode, n: nat)
    requires n <= ISIZE_MAX
    ensures n <= mode.PaddedLen(n) <= MAX_PLAINTEXT
  {
    PadmeFitsWord(n);
    PadmeGap(n);
  }

  // ---------------------------------------------------------------- round trip

  lemma CiphertextFits(s: Suite, key: Bytes, pt: Bytes)
    requires Sized(s) && |pt| <= MAX_PLAINTEXT
    ensures |Stream.Sealed(s, key, pt)| < U64_MAX
    ensures Stream.LastIndex(pt) <= U64_MAX
  {
    Stream.SealedLength(s, key, pt);
  }

  lemma CorrectOnRuns(s: Suite, k: BodyKeys, pt: Bytes)
    requires Correct(s)
    ensures Stream.OpensOwn(s, k.Aead(s), pt)
    ensures BlockStream.VerifiesOwn(s, k.Mac(),
      BlockStream.Payloads(Stream.Sealed(s, k.Aead(s), pt), BlockStream.BLOCK_SIZE))
  {
  }

  /** Opening undoes sealing, for every plaintext and every choice of keys. */
  lemma OpenSealed(s: Suite, k: BodyKeys, pt: Bytes)
    requires Sized(s) && Correct(s) && |pt| <= MAX_PLAINTEXT
    ensures OpenedBody(s, k, SealedBody(s, k, pt)) == Ok(pt)
  {
    CorrectOnRuns(s, k, pt);
    CiphertextFits(s, k.Aead(s), pt);
    BlockStream.ReadFramed(s, k.Mac(), Stream.Sealed(s, k.Aead(s), pt));
    Stream.DecryptSealed(s, k.Aead(s), pt);
  }

  /** What comes back is the plaintext that was saved, followed by nothing but zero padding. */
  lemma OpenSealedPadded(s: Suite, k: BodyKeys, mode: PadMode, pt: Bytes) returns (zeros: Bytes)
    requires Sized(s) && Correct(s) && |pt| <= ISIZE_MAX
    ensures OpenedBody(s, k, SealedBody(s, k, Padded(mode, pt))) == Ok(pt + zeros)
    ensures forall i :: 0 <= i < |zeros| ==> zeros[i] == 0
    ensures |pt + zeros| == match mode case NoPadding => |pt| case Padme => PadmeLen(|pt|)
    ensures 25 * |zeros| <= 3 * |pt|
  {
    PadmeFitsWord(|pt|);
    PadmeGap(|pt|);
    PadmeOverhead(|pt|);
    zeros := Padded(mode, pt)[|pt|..];
    OpenSealed(s, k, Padded(mode, pt));
    assert Padded(mode, pt) == pt + zeros;
  }

  // ---------------------------------------------------------------- authenticity of the two layers together

  /**
   One honest save under an ideal MAC and an AEAD that opens what it sealed: opening accepts exactly the
   saved body, and gives back exactly what was saved.
   */
  lemma OpenAcceptsExactly(s: Suite, k: BodyKeys, pt: Bytes, body: Bytes)
    requires Sized(s) && |pt| <= MAX_PLAINTEXT
    requires Stream.OpensOwn(s, k.Aead(s), pt)
    requires var payloads := BlockStream.Payloads(Stream.Sealed(s, k.Aead(s), pt), BlockStream.BLOCK_SIZE);
      BlockStream.VerifiesOwn(s, k.Mac(), payloads) && BlockStream.VerifiesOnly(s, k.Mac(), payloads)
    ensures OpenedBody(s, k, body).Ok? <==> body == SealedBody(s, k, pt)
    ensures body == SealedBody(s, k, pt) ==> OpenedBody(s, k, body) == Ok(pt)
  {
    var ct := Stream.Sealed(s, k.Aead(s), pt);
    CiphertextFits(s, k.Aead(s), pt);
    BlockStream.ReadAcceptsExactly(s, k.Mac(), ct, body);
    Stream.DecryptSealed(s, k.Aead(s), pt);
  }

  // ---------------------------------------------------------------- size

  /** Length of the body of a plaintext of `n` bytes, padding included in `n`. */
  function BodyLen(n: nat): nat {
    BlockStream.FramedLen(Stream.SealedLen(n))
  }

  lemma BodyLength(s: Suite, k: BodyKeys, pt: Bytes)
    requires Sized(s)
    ensures |SealedBody(s, k, pt)| == BodyLen(|pt|)
  {
    Stream.SealedLength(s, k.Aead(s), pt);
    BlockStream.FramedLength(s, k.Mac(), Stream.Sealed(s, k.Aead(s), pt));
  }

  lemma SealedLenMonotone(a: nat, b: nat)
    requires a < b
    ensures Stream.SealedLen(a) < Stream.SealedLen(b)
  {
    assert a / Stream.STREAM_CHUNK_SIZE <= b / Stream.STREAM_CHUNK_SIZE;
  }

  lemma FramedLenMonotone(a: nat, b: nat)
    requires a < b
    ensures BlockStream.FramedLen(a) < BlockStream.FramedLen(b)
  {
    var last := BlockStream.BLOCK_SIZE - 1;
    assert (a + last) / BlockStream.BLOCK_SIZE <= (b + last) / BlockStream.BLOCK_SIZE;
  }

  lemma BodyLenStrictlyMonotone(a: nat, b: nat)
    requires a < b
    ensures BodyLen(a) < BodyLen(b)
  {
    SealedLenMonotone(a, b);
    FramedLenMonotone(Stream.SealedLen(a), Stream.SealedLen(b));
  }

  lemma PaddedBodyLength(s: Suite, k: BodyKeys, pt: Bytes)
    requires Sized(s)
    ensures |SealedBody(s, k, Padded(Padme, pt))| == BodyLen(PadmeLen(|pt|))
  {
    PadmeGap(|pt|);
    BodyLength(s, k, Padded(Padme, pt));
  }

  /**
   The size of a saved body is a function of the plaintext's bucket alone, and grows with it: two
   archives in one Padmé bucket, under whatever keys, are the same size from outside, and archives
   of different buckets differ in size in the order of their lengths.
   */
  lemma SizeHiding(s: Suite, k1: BodyKeys, pt1: Bytes, k2: BodyKeys, pt2: Bytes)
    requires Sized(s)
    ensures |SealedBody(s, k1, Padded(Padme, pt1))| == BodyLen(PadmeLen(|pt1|))
    ensures PadmeLen(|pt1|) == PadmeLen(|pt2|)
      <==> |SealedBody(s, k1, Padded(Padme, pt1))| == |SealedBody(s, k2, Padded(Padme, pt2))|
    ensures |pt1| <= |pt2|
      ==> |SealedBody(s, k1, Padded(Padme, pt1))| <= |SealedBody(s, k2, Padded(Padme, pt2))|
  {
    PaddedBodyLength(s, k1, pt1);
    PaddedBodyLength(s, k2, pt2);
    var a, b := PadmeLen(|pt1|), PadmeLen(|pt2|);
    if a < b {
      BodyLenStrictlyMonotone(a, b);
    } else if b < a {
      BodyLenStrictlyMonotone(b, a);
    }
    if |pt1| <= |pt2| {
      PadmeMonotone(|pt1|, |pt2|);
    }
  }
}
