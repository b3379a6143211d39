/**
 The plaintext header: key-derivation parameters, seeds, key-wrapping stanzas and two integrity tags
 (format/header.rs, format/stanza.rs).
 */
module Headers {
  import opened Bytes
  import opened Primitives

  const FORMAT_VERSION := 1
  const MAX_STANZAS := 8
  const MAX_STANZA_DATA_LEN := 4096
  const KDF_ARGON2ID: byte := 1
  const HEADER_HMAC_INFO: Bytes :=
    [118, 97, 117, 108, 116, 45, 104, 101, 97, 100, 101, 114, 45, 104, 109, 97, 99, 45, 118, 49]

  // Stanza type tags.
  const PASSWORD: byte := 1
  const FIDO2: byte := 2
  const TPM: byte := 4
  const PW_YUBIKEY: byte := 7
  const PW_KEYFILE: byte := 8

  datatype ContainerKind = Vault | SealedFile | Volume {
    function Magic(): Bytes {
      match this
      case Vault => [0x56, 0x4C, 0x54, 0x00]
      case SealedFile => [0x56, 0x4C, 0x54, 0x46]
      case Volume => [0x56, 0x4C, 0x54, 0x44]
    }
  }

  function KindOf(magic: Bytes): Option<ContainerKind> {
    if magic == Vault.Magic() then Some(Vault)
    else if magic == SealedFile.Magic() then Some(SealedFile)
    else if magic == Volume.Magic() then Some(Volume)
    else None
  }

  datatype Stanza = Stanza(kind: byte, data: Bytes)

  datatype Header = Header(
    magic: Bytes,
    formatVersion: nat,
    vaultId: Bytes,
    algorithm: byte,
    costs: Costs,
    salt: Bytes,
    masterSeed: Bytes,
    noncePrefix: Bytes,
    stanzas: seq<Stanza>,
    hash: Bytes,
    hmac: Bytes)

  // ---------------------------------------------------------------- cost policy (crypto/mod.rs)

  datatype KdfStrength = Recommended | BelowRecommended | BelowFloor

  function ValidateKdfParams(c: Costs): Result<KdfStrength> {
    if c.m > 4_194_304 || c.t > 24 || c.p > 16 then Err(KdfParamsOutOfRange)
    else if c.m < 8 * c.p then Err(KdfParamsOutOfRange)
    else if c.m < 19_456 || c.t < 2 || c.p < 1 then Ok(BelowFloor)
    else if c.m >= 65_536 && c.t >= 3 && c.p >= 4 then Ok(Recommended)
    else Ok(BelowRecommended)
  }

  function RejectKdfBelowFloor(c: Costs): Result<Unit> {
    match ValidateKdfParams(c)
    case Err(e) => Err(e)
    case Ok(BelowFloor) => Err(KdfBelowFloor)
    case Ok(_) => Ok(Unit)
  }

  /** In range: up to 4 GiB in 1 KiB units, 24 passes and 16 lanes, 8 units for each lane. */
  ghost predicate CostsInRange(c: Costs) { 8 * c.p <= c.m <= 4 * 1024 * 1024 && c.t <= 24 && c.p <= 16 }

  /** The floor: 19 MiB, two passes, one lane. */
  ghost predicate CostsAtFloor(c: Costs) { c.m >= 19 * 1024 && c.t >= 2 && c.p >= 1 }

  /** Which costs are refused, and with which error. */
  lemma CostsExactly(c: Costs)
    ensures ValidateKdfParams(c).Ok? <==> CostsInRange(c)
    ensures RejectKdfBelowFloor(c) ==
      if !CostsInRange(c) then Err(KdfParamsOutOfRange)
      else if !CostsAtFloor(c) then Err(KdfBelowFloor)
      else Ok(Unit)
  {
  }

  // ---------------------------------------------------------------- writing

  function StanzaBytes(stanzas: seq<Stanza>): Bytes {
    if stanzas == [] then [] else StanzaRecord(stanzas[0]) + StanzaBytes(stanzas[1..])
  }

  function StanzaRecord(st: Stanza): Bytes {
    [st.kind] + LE(|st.data|, 4) + st.data
  }

  /** Magic through nonce prefix: the fields of fixed width. */
  function FixedPart(h: Header): Bytes {
    h.magic + LE(h.formatVersion, 2) + h.vaultId + [h.algorithm]
    + LE(h.costs.m, 4) + LE(h.costs.t, 4) + LE(h.costs.p, 4)
    + h.salt + h.masterSeed + h.noncePrefix
  }

  /** What both integrity tags cover. */
  function AuthSpan(h: Header): Bytes {
    FixedPart(h) + [|h.stanzas| % 256] + StanzaBytes(h.stanzas)
  }

  function Serialize(h: Header): Bytes {
    AuthSpan(h) + h.hash + h.hmac
  }

  function OnDiskLen(h: Header): nat {
    |AuthSpan(h)| + 64
  }

  function HmacKey(s: Suite, dataKey: Bytes): Bytes {
    s.hkdf(dataKey, [], HEADER_HMAC_INFO)
  }

  /** Fill in both tags of a freshly built header. */
  function Seal(s: Suite, h: Header, dataKey: Bytes): Header {
    h.(hash := s.sha256(AuthSpan(h)), hmac := s.hmac(HmacKey(s, dataKey), AuthSpan(h)))
  }

  /** Recompute the keyed tag and compare it, in constant time, with the stored one. */
  function VerifyHmac(s: Suite, h: Header, dataKey: Bytes): Result<Unit> {
    if s.hmacVerify(HmacKey(s, dataKey), AuthSpan(h), h.hmac) then Ok(Unit) else Err(HeaderTampered)
  }

  // ---------------------------------------------------------------- reading

  function SplitStanza(b: Bytes): (r: Result<(Stanza, Bytes)>)
    ensures r.Ok? ==> |r.value.1| < |b|
  {
    if |b| < 5 then Err(HeaderCorrupt)
    else
      var end := 5 + FromLE(b[1..5]);
      if end > 5 + MAX_STANZA_DATA_LEN || end > |b| then Err(HeaderCorrupt)
      else Ok((Stanza(b[0], b[5..end]), b[end..]))
  }

  function ParseStanzas(b: Bytes, count: nat): Result<(seq<Stanza>, Bytes)> {
    if count == 0 then Ok(([], b))
    else
      var (first, tail) :- SplitStanza(b);
      var (stanzas, rest) :- ParseStanzas(tail, count - 1);
      Ok(([first] + stanzas, rest))
  }

  /** Byte offset of the stanza count. */
  const FIXED_LEN := 115

  lemma CostFieldsFit(b: Bytes)
    requires |b| == 4
    ensures FromLE(b) <= U32_MAX
  {
    FromLERoundTrip(b);
    Pow256Widths();
  }

  function ReadU32(b: Bytes): u32
    requires |b| == 4
  {
    CostFieldsFit(b);
    FromLE(b)
  }

  function FieldsOf(b: Bytes): Header
    requires |b| == FIXED_LEN
  {
    Header(b[..4], FromLE(b[4..6]), b[6..22], b[22],
           Costs(ReadU32(b[23..27]), ReadU32(b[27..31]), ReadU32(b[31..35])),
           b[35..67], b[67..99], b[99..115], [], [], [])
  }

  /** The checks made while reading the fixed part and the stanza count, in the order they are made. */
  function CheckFixed(b: Bytes, expected: Option<ContainerKind>): (r: Result<Unit>)
    ensures r.Ok? ==> |b| > FIXED_LEN
  {
    if |b| < 4 then Err(HeaderCorrupt)
    else if KindOf(b[..4]).None? then Err(NotAVault)
    else if expected.Some? && KindOf(b[..4]) != expected then Err(WrongContainerKind)
    else if |b| < 6 then Err(HeaderCorrupt)
    else if FromLE(b[4..6]) > FORMAT_VERSION then Err(NewerVersion)
    else if |b| < 23 then Err(HeaderCorrupt)
    else if b[22] != KDF_ARGON2ID then Err(UnsupportedKdf)
    else if |b| <= FIXED_LEN then Err(HeaderCorrupt)
    else if b[FIXED_LEN] > MAX_STANZAS then Err(HeaderCorrupt)
    else Ok(Unit)
  }

  /** The tags that end a header, and the checks made once they are read. */
  function FinishParse(s: Suite, fields: Header, span: Bytes, tags: Bytes): Result<Header> {
    if |tags| < 64 then Err(HeaderCorrupt)
    else
      var h := fields.(hash := tags[..32], hmac := tags[32..64]);
      if s.sha256(span) != h.hash then Err(HeaderCorrupt)
      else
        match ValidateKdfParams(h.costs)
        case Err(e) => Err(e)
        case Ok(_) => Ok(h)
  }

  function Parse(s: Suite, b: Bytes, expected: Option<ContainerKind>): Result<Header> {
    var _ :- CheckFixed(b, expected);
    var (stanzas, tags) :- ParseStanzas(b[FIXED_LEN + 1..], b[FIXED_LEN]);
    var end := |b| - |tags|;
    FinishParse(s, FieldsOf(b[..FIXED_LEN]).(stanzas := stanzas), if end >= 0 then b[..end] else [], tags)
  }

  // ---------------------------------------------------------------- round trip

  /** Headers that can be written and read back. */
  ghost predicate Encodable(h: Header) {
    && KindOf(h.magic).Some? && h.formatVersion <= FORMAT_VERSION && h.algorithm == KDF_ARGON2ID
    && |h.vaultId| == 16 && |h.salt| == 32 && |h.masterSeed| == 32 && |h.noncePrefix| == 16
    && ValidateKdfParams(h.costs).Ok?
    && StorableStanzas(h.stanzas)
  }

  ghost predicate StorableStanzas(stanzas: seq<Stanza>) {
    |stanzas| <= MAX_STANZAS && forall i :: 0 <= i < |stanzas| ==> |stanzas[i].data| <= MAX_STANZA_DATA_LEN
  }

  lemma SplitStanzaRecord(st: Stanza, rest: Bytes)
    requires |st.data| <= MAX_STANZA_DATA_LEN
    ensures SplitStanza(StanzaRecord(st) + rest) == Ok((st, rest))
  {
    var b := StanzaRecord(st) + rest;
    var end := 5 + |st.data|;
    Pow256Widths();
    LERoundTrip(|st.data|, 4);
    assert b[1..5] == LE(|st.data|, 4);
    assert b[5..end] == st.data && b[end..] == rest;
  }

  lemma SplitStanzaIsLossless(b: Bytes)
    requires SplitStanza(b).Ok?
    ensures var (st, rest) := SplitStanza(b).value;
      |st.data| <= MAX_STANZA_DATA_LEN && b == StanzaRecord(st) + rest
  {
    FromLERoundTrip(b[1..5]);
    var end := 5 + FromLE(b[1..5]);
    assert b == [b[0]] + b[1..5] + b[5..end] + b[end..];
  }

  lemma {:induction false} ParseStanzaBytes(stanzas: seq<Stanza>, rest: Bytes)
    requires StorableStanzas(stanzas)
    ensures ParseStanzas(StanzaBytes(stanzas) + rest, |stanzas|) == Ok((stanzas, rest))
  {
    if stanzas == [] {
      assert StanzaBytes(stanzas) + rest == rest;
    } else {
      var tail := StanzaBytes(stanzas[1..]) + rest;
      ParseStanzaBytes(stanzas[1..], rest);
      SplitStanzaRecord(stanzas[0], tail);
      Assoc(StanzaRecord(stanzas[0]), StanzaBytes(stanzas[1..]), rest);
      assert [stanzas[0]] + stanzas[1..] == stanzas;
    }
  }

  lemma {:induction false} ParsedStanzasStorable(b: Bytes, count: nat)
    requires ParseStanzas(b, count).Ok? && count <= MAX_STANZAS
    ensures var (stanzas, rest) := ParseStanzas(b, count).value;
      && |stanzas| == count && StorableStanzas(stanzas)
      && b == StanzaBytes(stanzas) + rest
  {
    if count > 0 {
      var (first, tail) := SplitStanza(b).value;
      SplitStanzaIsLossless(b);
      ParsedStanzasStorable(tail, count - 1);
      var (stanzas, rest) := ParseStanzas(tail, count - 1).value;
      assert ([first] + stanzas)[1..] == stanzas;
      Assoc(StanzaRecord(first), StanzaBytes(stanzas), rest);
    } else {
      assert StanzaBytes([]) + b == b;
    }
  }

  /** Where each field of the fixed part lies. */
  lemma FixedPartSlices(h: Header, b: Bytes)
    requires |h.magic| == 4 && |h.vaultId| == 16 && |h.salt| == 32 && |h.masterSeed| == 32 && |h.noncePrefix| == 16
    requires b == FixedPart(h)
    ensures |b| == FIXED_LEN
    ensures b[..4] == h.magic && b[4..6] == LE(h.formatVersion, 2) && b[6..22] == h.vaultId && b[22] == h.algorithm
    ensures b[23..27] == LE(h.costs.m, 4) && b[27..31] == LE(h.costs.t, 4) && b[31..35] == LE(h.costs.p, 4)
    ensures b[35..67] == h.salt && b[67..99] == h.masterSeed && b[99..115] == h.noncePrefix
  {
  }

  lemma FieldsOfFixedPart(h: Header)
    requires Encodable(h)
    ensures |FixedPart(h)| == FIXED_LEN
    ensures FieldsOf(FixedPart(h)) == h.(stanzas := [], hash := [], hmac := [])
  {
    FixedPartSlices(h, FixedPart(h));
    Pow256Widths();
    LERoundTrip(h.formatVersion, 2);
    LERoundTrip(h.costs.m, 4);
    LERoundTrip(h.costs.t, 4);
    LERoundTrip(h.costs.p, 4);
  }

  lemma FixedPartOfFields(b: Bytes)
    requires |b| == FIXED_LEN
    ensures FixedPart(FieldsOf(b)) == b
  {
    FromLERoundTrip(b[4..6]);
    FromLERoundTrip(b[23..27]);
    FromLERoundTrip(b[27..31]);
    FromLERoundTrip(b[31..35]);
    assert b == b[..4] + b[4..6] + b[6..22] + [b[22]] + b[23..27] + b[27..31] + b[31..35]
                + b[35..67] + b[67..99] + b[99..115];
  }

  /** A written header passes the checks on its fixed part. */
  lemma FixedPartChecks(h: Header, b: Bytes, rest: Bytes, expected: Option<ContainerKind>)
    requires Encodable(h)
    requires expected.None? || expected == KindOf(h.magic)
    requires b == FixedPart(h) + [|h.stanzas|] + rest
    ensures CheckFixed(b, expected) == Ok(Unit)
    ensures b[..FIXED_LEN] == FixedPart(h) && b[FIXED_LEN] == |h.stanzas| && b[FIXED_LEN + 1..] == rest
  {
    var fixed := FixedPart(h);
    FieldsOfFixedPart(h);
    var f := FieldsOf(fixed);
    assert f.magic == fixed[..4] == b[..4];
    assert b[4..6] == fixed[4..6] && FromLE(b[4..6]) == f.formatVersion;
    assert b[22] == fixed[22] == f.algorithm;
  }

  /** A header's bytes as its fixed part, the stanza count, and the rest. */
  lemma Layout(h: Header, body: Bytes)
    ensures var tags := h.hash + h.hmac + body;
      && Serialize(h) + body == AuthSpan(h) + tags
      && Serialize(h) + body == FixedPart(h) + [|h.stanzas| % 256] + (StanzaBytes(h.stanzas) + tags)
  {
    var tags := h.hash + h.hmac + body;
    Assoc(AuthSpan(h), h.hash, h.hmac);
    Assoc(AuthSpan(h), h.hash + h.hmac, body);
    Assoc(FixedPart(h) + [|h.stanzas| % 256], StanzaBytes(h.stanzas), tags);
  }

  /** Reading, once the checks on the fixed part have passed and the stanzas have been read. */
  lemma ParseUnfolds(s: Suite, b: Bytes, expected: Option<ContainerKind>, stanzas: seq<Stanza>, span: Bytes,
                     tags: Bytes)
    requires CheckFixed(b, expected).Ok?
    requires ParseStanzas(b[FIXED_LEN + 1..], b[FIXED_LEN]) == Ok((stanzas, tags))
    requires b == span + tags
    ensures Parse(s, b, expected) == FinishParse(s, FieldsOf(b[..FIXED_LEN]).(stanzas := stanzas), span, tags)
  {
    assert b[..|b| - |tags|] == span;
  }

  lemma ParseSealed(s: Suite, h: Header, b: Bytes, tags: Bytes, expected: Option<ContainerKind>)
    requires Encodable(h) && (expected.None? || expected == KindOf(h.magic))
    requires |h.hash| == 32 && |h.hmac| == 32 && h.hash == s.sha256(AuthSpan(h))
    requires h.hash + h.hmac <= tags
    requires b == AuthSpan(h) + tags
    requires b == FixedPart(h) + [|h.stanzas|] + (StanzaBytes(h.stanzas) + tags)
    ensures Parse(s, b, expected) == Ok(h)
  {
    FixedPartChecks(h, b, StanzaBytes(h.stanzas) + tags, expected);
    FieldsOfFixedPart(h);
    ParseStanzaBytes(h.stanzas, tags);
    hide FixedPart, StanzaBytes, ParseStanzas, CheckFixed, FieldsOf;
    ParseUnfolds(s, b, expected, h.stanzas, AuthSpan(h), tags);
    assert tags[..32] == h.hash && tags[32..64] == h.hmac;
  }

  /**
   A sealed header followed by any body is read back as written, whatever follows, and its length
   says where the body begins.
   */
  lemma ParseSerialized(s: Suite, h: Header, dataKey: Bytes, body: Bytes, expected: Option<ContainerKind>)
    requires Sized(s) && Encodable(h)
    requires expected.None? || expected == KindOf(h.magic)
    ensures var sealed := Seal(s, h, dataKey);
      && Parse(s, Serialize(sealed) + body, expected) == Ok(sealed)
      && |Serialize(sealed)| == OnDiskLen(sealed)
      && (Serialize(sealed) + body)[OnDiskLen(sealed)..] == body
      && (Correct(s) ==> VerifyHmac(s, sealed, dataKey) == Ok(Unit))
  {
    var sealed := Seal(s, h, dataKey);
    assert AuthSpan(sealed) == AuthSpan(h);
    Layout(sealed, body);
    ParseSealed(s, sealed, Serialize(sealed) + body, sealed.hash + sealed.hmac + body, expected);
  }

  /** The tags cover the other fields only, so sealing again changes nothing. */
  lemma SealIsStable(s: Suite, h: Header, dk: Bytes)
    ensures Seal(s, Seal(s, h, dk), dk) == Seal(s, h, dk)
  {
    assert AuthSpan(Seal(s, h, dk)) == AuthSpan(h);
  }

  lemma FixedPartDetermined(h: Header, fixed: Bytes)
    requires |fixed| == FIXED_LEN && h.(stanzas := [], hash := [], hmac := []) == FieldsOf(fixed)
    ensures FixedPart(h) == fixed
  {
    FixedPartOfFields(fixed);
    assert FixedPart(h) == FixedPart(FieldsOf(fixed));
  }

  lemma CheckedFields(b: Bytes, expected: Option<ContainerKind>)
    requires CheckFixed(b, expected).Ok?
    ensures var f := FieldsOf(b[..FIXED_LEN]);
      && f.algorithm == KDF_ARGON2ID && f.formatVersion <= FORMAT_VERSION && KindOf(f.magic).Some?
      && (expected.Some? ==> KindOf(f.magic) == expected)
      && b[FIXED_LEN] <= MAX_STANZAS
  {
    var fixed := b[..FIXED_LEN];
    assert fixed[..4] == b[..4] && fixed[4..6] == b[4..6] && fixed[22] == b[22];
  }

  lemma ParsedEncodable(s: Suite, b: Bytes, expected: Option<ContainerKind>)
    requires Parse(s, b, expected).Ok?
    ensures var h := Parse(s, b, expected).value;
      Encodable(h) && (expected.Some? ==> KindOf(h.magic) == expected)
  {
    CheckedFields(b, expected);
    ParsedStanzasStorable(b[FIXED_LEN + 1..], b[FIXED_LEN]);
  }

  /** What an accepted header is made of, and where. */
  lemma ParsedParts(s: Suite, b: Bytes, expected: Option<ContainerKind>) returns (tags: Bytes)
    requires Parse(s, b, expected).Ok?
    ensures var h := Parse(s, b, expected).value;
      && |b| > FIXED_LEN && FixedPart(h) == b[..FIXED_LEN] && |h.stanzas| == b[FIXED_LEN]
      && b[FIXED_LEN + 1..] == StanzaBytes(h.stanzas) + tags
      && |tags| >= 64 && h.hash == tags[..32] && h.hmac == tags[32..64]
  {
    ParsedStanzasStorable(b[FIXED_LEN + 1..], b[FIXED_LEN]);
    tags := ParseStanzas(b[FIXED_LEN + 1..], b[FIXED_LEN]).value.1;
    FixedPartDetermined(Parse(s, b, expected).value, b[..FIXED_LEN]);
  }

  /** The plain hash an accepted header carries is that of its own fields. */
  lemma ParsedHash(s: Suite, b: Bytes, expected: Option<ContainerKind>)
    requires Parse(s, b, expected).Ok?
    ensures Parse(s, b, expected).value.hash == s.sha256(AuthSpan(Parse(s, b, expected).value))
  {
    var h := Parse(s, b, expected).value;
    var (stanzas, tags) := ParseStanzas(b[FIXED_LEN + 1..], b[FIXED_LEN]).value;
    ParsedStanzasStorable(b[FIXED_LEN + 1..], b[FIXED_LEN]);
    FixedPartDetermined(h, b[..FIXED_LEN]);
    SpanThenTags(h, b, tags);
    ParseUnfolds(s, b, expected, stanzas, AuthSpan(h), tags);
  }

  lemma SpanThenTags(h: Header, b: Bytes, tags: Bytes)
    requires |b| > FIXED_LEN && FixedPart(h) == b[..FIXED_LEN] && |h.stanzas| == b[FIXED_LEN]
    requires b[FIXED_LEN + 1..] == StanzaBytes(h.stanzas) + tags
    ensures b == AuthSpan(h) + tags
  {
    Assoc(FixedPart(h) + [b[FIXED_LEN]], StanzaBytes(h.stanzas), tags);
    assert b == b[..FIXED_LEN] + [b[FIXED_LEN]] + b[FIXED_LEN + 1..];
  }

  lemma SerializedPrefix(h: Header, b: Bytes, tags: Bytes)
    requires |b| > FIXED_LEN && FixedPart(h) == b[..FIXED_LEN] && |h.stanzas| == b[FIXED_LEN]
    requires b[FIXED_LEN + 1..] == StanzaBytes(h.stanzas) + tags
    requires |tags| >= 64 && h.hash == tags[..32] && h.hmac == tags[32..64]
    ensures OnDiskLen(h) == |Serialize(h)| <= |b| && b == Serialize(h) + b[OnDiskLen(h)..]
  {
    assert tags == h.hash + h.hmac + tags[64..];
    Layout(h, tags[64..]);
    assert b == b[..FIXED_LEN] + [b[FIXED_LEN]] + b[FIXED_LEN + 1..];
    assert b == Serialize(h) + tags[64..];
  }

  /** Reading is canonical: an accepted header serialises to the very bytes it was read from. */
  lemma ParsedSerializes(s: Suite, b: Bytes, expected: Option<ContainerKind>)
    requires Parse(s, b, expected).Ok?
    ensures var h := Parse(s, b, expected).value;
      && OnDiskLen(h) == |Serialize(h)| <= |b|
      && b == Serialize(h) + b[OnDiskLen(h)..]
  {
    var tags := ParsedParts(s, b, expected);
    SerializedPrefix(Parse(s, b, expected).value, b, tags);
  }
}
