/** A whole container on disk: header, then body; what opening it under a known data key accepts. */
module Containers {
  import opened Bytes
  import opened Primitives
  import opened Headers
  import opened Pad
  import opened Body
  import Stream
  import BlockStream

  datatype Opened = Opened(header: Header, dataKey: Bytes, plaintext: Bytes)

  function KeysOf(h: Header, dataKey: Bytes): BodyKeys { BodyKeys(dataKey, h.masterSeed, h.noncePrefix) }

  /** A sealed header followed by the body it is the header of. */
  function File(s: Suite, h: Header, dataKey: Bytes, pt: Bytes): Bytes {
    Serialize(h) + SealedBody(s, KeysOf(h, dataKey), pt)
  }

  /** Everything after the data key is unwrapped: the keyed header tag, the body's blocks, its chunks. */
  function OpenWith(s: Suite, h: Header, dataKey: Bytes, b: Bytes): Result<Opened>
    requires OnDiskLen(h) <= |b|
  {
    var _ :- VerifyHmac(s, h, dataKey);
    var pt :- OpenedBody(s, KeysOf(h, dataKey), b[OnDiskLen(h)..]);
    Ok(Opened(h, dataKey, pt))
  }

  /** Opening by someone who has unwrapped this data key. */
  function OpenUnder(s: Suite, b: Bytes, expected: Option<ContainerKind>, dataKey: Bytes): Result<Opened> {
    match Parse(s, b, expected)
    case Err(e) => Err(e)
    case Ok(h) =>
      ParsedSerializes(s, b, expected);
      OpenWith(s, h, dataKey, b)
  }

  /** A header as a save leaves it. */
  ghost predicate SealedHeader(s: Suite, h: Header, dataKey: Bytes) {
    Encodable(h) && h == Seal(s, h, dataKey)
  }

  /** A file reads back as it was written, for every header, key and plaintext. */
  lemma OpenFile(s: Suite, h: Header, dataKey: Bytes, pt: Bytes, expected: Option<ContainerKind>)
    requires Sized(s) && Correct(s) && SealedHeader(s, h, dataKey) && |pt| <= MAX_PLAINTEXT
    requires expected.None? || expected == KindOf(h.magic)
    ensures var b := File(s, h, dataKey, pt);
      && Parse(s, b, expected) == Ok(h)
      && OnDiskLen(h) <= |b| && OpenWith(s, h, dataKey, b) == Ok(Opened(h, dataKey, pt))
      && OpenUnder(s, b, expected, dataKey) == Ok(Opened(h, dataKey, pt))
  {
    ParseSerialized(s, h, dataKey, SealedBody(s, KeysOf(h, dataKey), pt), expected);
    OpenSealed(s, KeysOf(h, dataKey), pt);
  }

  // ---------------------------------------------------------------- authenticity of the whole file

  /** One save: the header as it was written, and the plaintext of the body behind it. */
  datatype Save = Save(header: Header, plaintext: Bytes)

  function FileOf(s: Suite, save: Save, dataKey: Bytes): Bytes { File(s, save.header, dataKey, save.plaintext) }

  /** Honest tags verify and honest chunks open; block tags are unforgeable. */
  ghost predicate IdealBody(s: Suite, keys: BodyKeys, pt: Bytes) {
    var payloads := BlockStream.Payloads(Stream.Sealed(s, keys.Aead(s), pt), BlockStream.BLOCK_SIZE);
    && Stream.OpensOwn(s, keys.Aead(s), pt)
    && BlockStream.VerifiesOwn(s, keys.Mac(), payloads) && BlockStream.VerifiesOnly(s, keys.Mac(), payloads)
  }

  /** The header was sealed under the data key, its own tag verifies, and its body's seeds serve no other body. */
  ghost predicate HonestSave(s: Suite, save: Save, dataKey: Bytes) {
    && SealedHeader(s, save.header, dataKey) && VerifyHmac(s, save.header, dataKey).Ok?
    && |save.plaintext| <= MAX_PLAINTEXT && IdealBody(s, KeysOf(save.header, dataKey), save.plaintext)
  }

  /** All the saves ever made under one data key; each may have its own stanzas, seeds and plaintext. */
  ghost predicate HonestSaves(s: Suite, saves: seq<Save>, dataKey: Bytes) {
    forall i {:trigger saves[i]} :: 0 <= i < |saves| ==> HonestSave(s, saves[i], dataKey)
  }

  /** The MAC is ideal under the header key: it verifies nothing but the tags of the saved headers. */
  ghost predicate HeaderVerifiesOnly(s: Suite, saves: seq<Save>, dataKey: Bytes) {
    forall m: Bytes, t: Bytes {:trigger s.hmacVerify(HmacKey(s, dataKey), m, t)} ::
      s.hmacVerify(HmacKey(s, dataKey), m, t) ==>
        exists i {:trigger saves[i]} ::
          0 <= i < |saves| && m == AuthSpan(saves[i].header) && t == saves[i].header.hmac
  }

  lemma SameHeader(s: Suite, b: Bytes, expected: Option<ContainerKind>, h: Header, dataKey: Bytes)
    requires Sized(s) && SealedHeader(s, h, dataKey)
    requires Parse(s, b, expected).Ok?
    requires AuthSpan(Parse(s, b, expected).value) == AuthSpan(h) && Parse(s, b, expected).value.hmac == h.hmac
    ensures Parse(s, b, expected) == Ok(h)
  {
    var read := Parse(s, b, expected).value;
    ParsedHash(s, b, expected);
    ParsedSerializes(s, b, expected);
    assert read.hash == h.hash && Serialize(read) == Serialize(h);
    ParseSerialized(s, h, dataKey, b[OnDiskLen(read)..], None);
  }

  /** A header that verifies under the data key is that of one of the saves. */
  lemma VerifiedHeader(s: Suite, saves: seq<Save>, dk: Bytes, b: Bytes,
      expected: Option<ContainerKind>) returns (i: nat)
    requires Sized(s) && HonestSaves(s, saves, dk) && HeaderVerifiesOnly(s, saves, dk)
    requires Parse(s, b, expected).Ok? && VerifyHmac(s, Parse(s, b, expected).value, dk).Ok?
    ensures i < |saves| && Parse(s, b, expected) == Ok(saves[i].header)
  {
    var read := Parse(s, b, expected).value;
    assert s.hmacVerify(HmacKey(s, dk), AuthSpan(read), read.hmac);
    i :| 0 <= i < |saves| && AuthSpan(read) == AuthSpan(saves[i].header) && read.hmac == saves[i].header.hmac;
    SameHeader(s, b, expected, saves[i].header, dk);
  }

  lemma HonestFileOpens(s: Suite, save: Save, dk: Bytes, expected: Option<ContainerKind>)
    requires Sized(s) && HonestSave(s, save, dk)
    requires expected.None? || expected == KindOf(save.header.magic)
    ensures Parse(s, FileOf(s, save, dk), expected) == Ok(save.header)
    ensures OpenUnder(s, FileOf(s, save, dk), expected, dk) == Ok(Opened(save.header, dk, save.plaintext))
  {
    var body := SealedBody(s, KeysOf(save.header, dk), save.plaintext);
    ParseSerialized(s, save.header, dk, body, expected);
    OpenAcceptsExactly(s, KeysOf(save.header, dk), save.plaintext, body);
  }

  /** An accepted file with a save's header is that save's file. */
  lemma AcceptedIsFile(s: Suite, save: Save, dk: Bytes, b: Bytes, expected: Option<ContainerKind>)
    requires Sized(s) && HonestSave(s, save, dk)
    requires Parse(s, b, expected) == Ok(save.header) && OpenUnder(s, b, expected, dk).Ok?
    ensures b == FileOf(s, save, dk)
  {
    ParsedSerializes(s, b, expected);
    OpenAcceptsExactly(s, KeysOf(save.header, dk), save.plaintext, b[OnDiskLen(save.header)..]);
  }

  /**
   Under ideal MACs, opening under a data key accepts the files that were saved under it, however often
   that was, and no other byte string: no field, stanza, tag or body byte can be changed, added or
   dropped, and no header or block can be taken over from another save.
   */
  lemma AcceptsOnlyHonest(s: Suite, saves: seq<Save>, dk: Bytes, b: Bytes, expected: Option<ContainerKind>)
    requires Sized(s) && HonestSaves(s, saves, dk) && HeaderVerifiesOnly(s, saves, dk)
    ensures OpenUnder(s, b, expected, dk).Ok? <==>
      exists i {:trigger saves[i]} :: 0 <= i < |saves| && b == FileOf(s, saves[i], dk)
        && (expected.None? || expected == KindOf(saves[i].header.magic))
    ensures forall i {:trigger saves[i]} ::
      0 <= i < |saves| && b == FileOf(s, saves[i], dk)
      && (expected.None? || expected == KindOf(saves[i].header.magic))
      ==> OpenUnder(s, b, expected, dk) == Ok(Opened(saves[i].header, dk, saves[i].plaintext))
  {
    hide HonestSave, FileOf;
    forall i | 0 <= i < |saves| && b == FileOf(s, saves[i], dk)
               && (expected.None? || expected == KindOf(saves[i].header.magic))
      ensures OpenUnder(s, b, expected, dk) == Ok(Opened(saves[i].header, dk, saves[i].plaintext))
    {
      HonestFileOpens(s, saves[i], dk, expected);
    }
    if OpenUnder(s, b, expected, dk).Ok? {
      ParsedSerializes(s, b, expected);
      var i := VerifiedHeader(s, saves, dk, b, expected);
      AcceptedIsFile(s, saves[i], dk, b, expected);
      ParsedEncodable(s, b, expected);
    }
  }

  // ---------------------------------------------------------------- size

  /** Containers with headers of one length are as long as each other exactly when they share a bucket. */
  lemma FileSizeHiding(s: Suite, h1: Header, dk1: Bytes, pt1: Bytes, h2: Header, dk2: Bytes, pt2: Bytes)
    requires Sized(s) && OnDiskLen(h1) == OnDiskLen(h2)
    requires |h1.hash| == |h1.hmac| == |h2.hash| == |h2.hmac| == 32
    ensures |File(s, h1, dk1, Padded(Padme, pt1))| == OnDiskLen(h1) + BodyLen(PadmeLen(|pt1|))
    ensures PadmeLen(|pt1|) == PadmeLen(|pt2|)
      <==> |File(s, h1, dk1, Padded(Padme, pt1))| == |File(s, h2, dk2, Padded(Padme, pt2))|
    ensures |pt1| <= |pt2| ==> |File(s, h1, dk1, Padded(Padme, pt1))| <= |File(s, h2, dk2, Padded(Padme, pt2))|
  {
    SizeHiding(s, KeysOf(h1, dk1), pt1, KeysOf(h2, dk2), pt2);
  }
}
