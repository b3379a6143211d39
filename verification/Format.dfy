/**
 What the files look like, byte by byte: where each field lies, in which order its bytes stand, and which labels
 keys are derived under (docs/FILE_FORMAT.md, format/header.rs, block_stream.rs, tlv.rs, crypto/stream.rs).
 */
module Format {
  import opened Bytes
  import opened Primitives
  import opened Headers
  import opened StanzaTails
  import opened Envelope
  import opened Tlv
  import opened Body
  import opened Containers
  import Stream
  import BlockStream
  import Archive
  import Frecency
  import Staging

  function Text(b: Bytes): (r: string)
    ensures |r| == |b|
  {
    seq(|b|, i requires 0 <= i < |b| => b[i] as char)
  }

  /** The bytes of `n`, the lowest first. */
  ghost predicate Spells(b: Bytes, n: nat) {
    forall i: nat :: i < |b| ==> b[i] == n / Pow256(i) % 256
  }

  lemma SpellsExactly(b: Bytes, n: nat)
    ensures Spells(b, n) <==> b == LE(n, |b|)
  {
    forall i: nat | i < |b| ensures LE(n, |b|)[i] == n / Pow256(i) % 256 {
      LEByte(n, |b|, i);
    }
  }

  // ---------------------------------------------------------------- labels

  lemma HeaderLabel()
    ensures Text(HEADER_HMAC_INFO) == "vault-header-hmac-v1"
  {
  }

  lemma BlockLabel()
    ensures Text(BlockStream.BLOCK_HMAC_INFO) == "vault-block-hmac-v1"
  {
  }

  lemma PayloadLabel()
    ensures Text(Stream.PAYLOAD_INFO) == "vault-payload-v1"
  {
  }

  lemma PasswordLabel()
    ensures Text(PW_WRAP_INFO) == "vault-pw-wrap-v1"
  {
  }

  lemma YubiKeyLabel()
    ensures Text(TWOFA_WRAP_INFO) == "vault-2fa-wrap-v1"
  {
  }

  lemma KeyfileLabel()
    ensures Text(KEYFILE_WRAP_INFO) == "vault-keyfile-wrap-v1"
  {
  }

  lemma Fido2Label()
    ensures Text(FIDO2_WRAP_INFO) == "vault-hw-wrap-v1"
  {
  }

  lemma TpmLabel()
    ensures Text(TPM_WRAP_INFO) == "vault-tpm-wrap-v1"
  {
  }

  lemma SaltLabel()
    ensures Text(FIDO2_SALT_LABEL) == "fido2-hw-v1"
  {
  }

  /** The four bytes a file begins with. */
  lemma MagicLabels()
    ensures Text(Vault.Magic()) == ['V', 'L', 'T', 0 as char] && Text(SealedFile.Magic()) == "VLTF"
    ensures Text(Volume.Magic()) == "VLTD"
  {
  }

  lemma StagingLabels()
    ensures Text(Staging.STAGING_DIR) == ".vltf-partial" && Text(Staging.PART) == ".vltf-part"
  {
  }

  /** The labels keys are derived under, and the four bytes a file begins with. */
  lemma Labels()
    ensures Text(HEADER_HMAC_INFO) == "vault-header-hmac-v1" && Text(BlockStream.BLOCK_HMAC_INFO)
      == "vault-block-hmac-v1"
    ensures Text(Stream.PAYLOAD_INFO) == "vault-payload-v1"
    ensures Text(PW_WRAP_INFO) == "vault-pw-wrap-v1" && Text(TWOFA_WRAP_INFO) == "vault-2fa-wrap-v1"
    ensures Text(KEYFILE_WRAP_INFO) == "vault-keyfile-wrap-v1" && Text(FIDO2_WRAP_INFO) == "vault-hw-wrap-v1"
    ensures Text(TPM_WRAP_INFO) == "vault-tpm-wrap-v1" && Text(FIDO2_SALT_LABEL) == "fido2-hw-v1"
    ensures Text(Vault.Magic()) == ['V', 'L', 'T', 0 as char] && Text(SealedFile.Magic()) == "VLTF"
    ensures Text(Volume.Magic()) == "VLTD"
  {
    HeaderLabel();
    BlockLabel();
    PayloadLabel();
    PasswordLabel();
    YubiKeyLabel();
    KeyfileLabel();
    Fido2Label();
    TpmLabel();
    SaltLabel();
    MagicLabels();
    hide *;
  }

  // ---------------------------------------------------------------- the header

  /** Where stanza `i` begins: behind the fixed part, the count and the stanzas before it. */
  function StanzaAt(stanzas: seq<Stanza>, i: nat): nat
    requires i <= |stanzas|
  {
    if i == 0 then 116 else StanzaAt(stanzas, i - 1) + 5 + |stanzas[i - 1].data|
  }

  /** The fields of fixed width, where they lie. */
  ghost predicate FixedFields(h: Header, b: Bytes) {
    && |b| >= 116
    && b[..4] == h.magic && U16(b[4], b[5]) == h.formatVersion && b[6..22] == h.vaultId && b[22] == h.algorithm
    && U32(b[23], b[24], b[25], b[26]) == h.costs.m
    && U32(b[27], b[28], b[29], b[30]) == h.costs.t
    && U32(b[31], b[32], b[33], b[34]) == h.costs.p
    && b[35..67] == h.salt && b[67..99] == h.masterSeed && b[99..115] == h.noncePrefix
    && b[115] == |h.stanzas|
  }

  ghost predicate StanzaFields(h: Header, b: Bytes, i: nat)
    requires i < |h.stanzas|
  {
    var at, st := StanzaAt(h.stanzas, i), h.stanzas[i];
    && |b| >= at + 5 + |st.data|
    && b[at] == st.kind && U32(b[at + 1], b[at + 2], b[at + 3], b[at + 4]) == |st.data|
    && b[at + 5..at + 5 + |st.data|] == st.data
  }

  lemma {:induction false} StanzasLie(stanzas: seq<Stanza>, before: Bytes, i: nat)
    requires i <= |stanzas| && |before| == 116
    ensures |before + StanzaBytes(stanzas[..i])| == StanzaAt(stanzas, i)
    ensures i < |stanzas| ==>
      StanzaBytes(stanzas[..i + 1]) == StanzaBytes(stanzas[..i]) + StanzaRecord(stanzas[i])
    decreases i
  {
    if i < |stanzas| {
      StanzaBytesAppend(stanzas[..i], stanzas[i]);
      assert stanzas[..i + 1] == stanzas[..i] + [stanzas[i]];
    }
    if i > 0 {
      StanzasLie(stanzas, before, i - 1);
    }
  }

  lemma {:induction false} StanzaBytesAppend(stanzas: seq<Stanza>, st: Stanza)
    ensures StanzaBytes(stanzas + [st]) == StanzaBytes(stanzas) + StanzaRecord(st)
  {
    hide StanzaRecord;
    if stanzas == [] {
      assert [] + [st] == [st] && [st][1..] == [] && StanzaRecord(st) + [] == StanzaRecord(st);
    } else {
      assert (stanzas + [st])[1..] == stanzas[1..] + [st];
      StanzaBytesAppend(stanzas[1..], st);
      Assoc(StanzaRecord(stanzas[0]), StanzaBytes(stanzas[1..]), StanzaRecord(st));
    }
  }

  lemma {:induction false} StanzaBytesPrefix(stanzas: seq<Stanza>, i: nat)
    requires i <= |stanzas|
    ensures StanzaBytes(stanzas[..i]) <= StanzaBytes(stanzas)
    decreases |stanzas| - i
  {
    if i == |stanzas| {
      assert stanzas[..i] == stanzas;
    } else {
      StanzaBytesPrefix(stanzas, i + 1);
      StanzasLie(stanzas, Zeros(116), i);
    }
  }

  /** The fixed part, by its slices. */
  lemma FixedLie(h: Header, b: Bytes)
    requires Encodable(h) && FixedPart(h) + [|h.stanzas|] <= b
    ensures FixedFields(h, b)
  {
    var f := FixedPart(h);
    FixedPartSlices(h, f);
    hide FixedPart, Encodable;
    assert |f| == 115 && b[..115] == f && b[115] == |h.stanzas|;
    assert b[..4] == f[..4] && b[6..22] == f[6..22] && b[35..67] == f[35..67] && b[67..99] == f[67..99];
    assert b[99..115] == f[99..115];
    FieldLies(b, f, 4, 2, h.formatVersion);
    FieldLies(b, f, 23, 4, h.costs.m);
    FieldLies(b, f, 27, 4, h.costs.t);
    FieldLies(b, f, 31, 4, h.costs.p);
  }

  /** An integer of two or four bytes in the fixed part. */
  lemma FieldLies(b: Bytes, f: Bytes, at: nat, width: nat, n: nat)
    requires f <= b && at + width <= |f| && f[at..at + width] == LE(n, width)
    requires (width == 2 && n <= 0xFFFF) || (width == 4 && n <= U32_MAX)
    ensures width == 2 ==> n == U16(b[at], b[at + 1])
    ensures width == 4 ==> n == U32(b[at], b[at + 1], b[at + 2], b[at + 3])
  {
    var field := f[at..at + width];
    LEWritten(n, field);
    assert forall i :: 0 <= i < width ==> field[i] == b[at + i];
  }

  lemma StanzaLies(stanzas: seq<Stanza>, before: Bytes, b: Bytes, i: nat)
    requires |before| == 116 && i < |stanzas| && |stanzas[i].data| <= MAX_STANZA_DATA_LEN
    requires before + StanzaBytes(stanzas) <= b
    ensures var at, st := StanzaAt(stanzas, i), stanzas[i];
      && |b| >= at + 5 + |st.data|
      && b[at] == st.kind && U32(b[at + 1], b[at + 2], b[at + 3], b[at + 4]) == |st.data|
      && b[at + 5..at + 5 + |st.data|] == st.data
  {
    StanzasLie(stanzas, before, i);
    StanzaBytesPrefix(stanzas, i + 1);
    var front, record := before + StanzaBytes(stanzas[..i]), StanzaRecord(stanzas[i]);
    hide StanzaBytes, StanzaRecord, StanzaAt;
    Assoc(before, StanzaBytes(stanzas[..i]), record);
    PrefixMore(before, StanzaBytes(stanzas[..i + 1]), StanzaBytes(stanzas), b);
    RecordLies(b, front, stanzas[i]);
  }

  lemma PrefixMore(before: Bytes, a: Bytes, c: Bytes, b: Bytes)
    requires a <= c && before + c <= b
    ensures before + a <= b
  {
    assert before + c == before + a + c[|a|..];
  }

  lemma RecordLies(b: Bytes, front: Bytes, st: Stanza)
    requires front + StanzaRecord(st) <= b && |st.data| <= MAX_STANZA_DATA_LEN
    ensures var at := |front|;
      && |b| >= at + 5 + |st.data| && b[at] == st.kind
      && U32(b[at + 1], b[at + 2], b[at + 3], b[at + 4]) == |st.data|
      && b[at + 5..at + 5 + |st.data|] == st.data
  {
    var f, at := front + StanzaRecord(st), |front|;
    assert f[at] == st.kind && f[at + 1..at + 5] == LE(|st.data|, 4) && f[at + 5..at + 5 + |st.data|] == st.data;
    FieldLies(b, f, at + 1, 4, |st.data|);
    assert b[at + 5..at + 5 + |st.data|] == f[at + 5..at + 5 + |st.data|];
  }

  /**
   Where everything lies in a file that begins with this header: the fields of fixed width, every stanza's kind,
   length and data, and the two tags behind the last stanza, with which the header ends.
   */
  lemma HeaderLayout(h: Header, b: Bytes)
    requires Encodable(h) && |h.hash| == 32 && |h.hmac| == 32 && Serialize(h) <= b
    ensures FixedFields(h, b) && forall i: nat :: i < |h.stanzas| ==> StanzaFields(h, b, i)
    ensures var end := StanzaAt(h.stanzas, |h.stanzas|);
      && |b| >= end + 64 == OnDiskLen(h) && b[end..end + 32] == h.hash && b[end + 32..end + 64] == h.hmac
  {
    var before, span := HeaderParts(h);
    hide StanzaBytes, FixedFields, StanzaFields, AuthSpan, Serialize, OnDiskLen, FixedPart, StanzaAt;
    TagsLie(span, h.hash, h.hmac, b);
    FixedLie(h, b);
    StanzasAllLie(h, before, b);
  }

  lemma StanzasAllLie(h: Header, before: Bytes, b: Bytes)
    requires StorableStanzas(h.stanzas) && |before| == 116 && before + StanzaBytes(h.stanzas) <= b
    ensures forall i: nat :: i < |h.stanzas| ==> StanzaFields(h, b, i)
  {
    hide StanzaBytes, StanzaAt;
    forall i: nat | i < |h.stanzas| ensures StanzaFields(h, b, i) {
      StanzaLies(h.stanzas, before, b, i);
    }
  }

  /** The header without its stanzas, and all that the tags cover. */
  lemma HeaderParts(h: Header) returns (before: Bytes, span: Bytes)
    requires Encodable(h)
    ensures before == FixedPart(h) + [|h.stanzas|] && |before| == 116
    ensures span == before + StanzaBytes(h.stanzas) && before <= span && Serialize(h) == span + h.hash + h.hmac
    ensures AuthSpan(h) == span
    ensures |span| == StanzaAt(h.stanzas, |h.stanzas|) && OnDiskLen(h) == |span| + 64
  {
    before, span := HeaderSpan(h);
    assert OnDiskLen(h) == |span| + 64;
    hide FixedPart, StanzaBytes, StanzaAt, AuthSpan, Serialize, Encodable, OnDiskLen;
    StanzasLie(h.stanzas, before, |h.stanzas|);
    assert h.stanzas[..|h.stanzas|] == h.stanzas;
  }

  lemma HeaderSpan(h: Header) returns (before: Bytes, span: Bytes)
    requires Encodable(h)
    ensures before == FixedPart(h) + [|h.stanzas|] && |before| == 116
    ensures span == before + StanzaBytes(h.stanzas) && before <= span && Serialize(h) == span + h.hash + h.hmac
    ensures AuthSpan(h) == span
  {
    hide FixedPart, StanzaBytes;
    FixedPartSlices(h, FixedPart(h));
    before := FixedPart(h) + [|h.stanzas|];
    span := before + StanzaBytes(h.stanzas);
  }

  lemma TagsLie(span: Bytes, hash: Bytes, hmac: Bytes, b: Bytes)
    requires |hash| == 32 && |hmac| == 32 && span + hash + hmac <= b
    ensures span <= b && |b| >= |span| + 64
    ensures b[|span|..|span| + 32] == hash && b[|span| + 32..|span| + 64] == hmac
  {
    var all, end := span + hash + hmac, |span|;
    assert all[end..end + 32] == hash && all[end + 32..end + 64] == hmac && all[..end] == span;
    assert b[end..end + 32] == all[end..end + 32] && b[end + 32..end + 64] == all[end + 32..end + 64];
  }

  /** So it is for every file whose header is accepted. */
  lemma ParsedLayout(s: Suite, b: Bytes, expected: Option<ContainerKind>)
    requires Sized(s) && Parse(s, b, expected).Ok?
    ensures var h := Parse(s, b, expected).value;
      && |h.stanzas| <= 8 && (forall st <- h.stanzas :: |st.data| <= 4096)
      && FixedFields(h, b) && (forall i: nat :: i < |h.stanzas| ==> StanzaFields(h, b, i))
      && var end := StanzaAt(h.stanzas, |h.stanzas|);
      && |b| >= end + 64 == OnDiskLen(h) && b[end..end + 32] == h.hash && b[end + 32..end + 64] == h.hmac
  {
    ParsedEncodable(s, b, expected);
    ParsedSerializes(s, b, expected);
    var tags := ParsedParts(s, b, expected);
    hide Parse, FixedFields, StanzaFields, Encodable;
    HeaderLayout(Parse(s, b, expected).value, b);
  }

  /** The first four bytes are looked at before all others, and decide these two errors. */
  lemma KindRefusedExactly(s: Suite, b: Bytes, expected: Option<ContainerKind>)
    requires |b| >= 4
    ensures Parse(s, b, expected) == Err(NotAVault) <==>
      Text(b[..4]) != ['V', 'L', 'T', 0 as char] && Text(b[..4]) != "VLTF" && Text(b[..4]) != "VLTD"
    ensures Parse(s, b, expected) == Err(WrongContainerKind) <==>
      KindOf(b[..4]).Some? && expected.Some? && b[..4] != expected.value.Magic()
  {
    MagicLabels();
    TextInjective(b[..4], Vault.Magic());
    TextInjective(b[..4], SealedFile.Magic());
    TextInjective(b[..4], Volume.Magic());
    hide Text;
    if CheckFixed(b, expected).Ok? {
      StanzaErrors(b[FIXED_LEN + 1..], b[FIXED_LEN]);
      hide ParseStanzas;
    }
  }

  lemma TextInjective(a: Bytes, b: Bytes)
    requires |a| == |b|
    ensures Text(a) == Text(b) <==> a == b
  {
    if Text(a) == Text(b) {
      forall i | 0 <= i < |a| ensures a[i] == b[i] {
        assert Text(a)[i] == Text(b)[i];
      }
    }
  }

  /** The version is read before the rest, and refused exactly if the two bytes spell more than one. */
  lemma NewerVersionExactly(s: Suite, b: Bytes, expected: Option<ContainerKind>)
    requires |b| >= 6 && KindOf(b[..4]).Some? && (expected.None? || expected == KindOf(b[..4]))
    ensures Parse(s, b, expected) == Err(NewerVersion) <==> U16(b[4], b[5]) > 1
  {
    LESums(b[4..6]);
    if CheckFixed(b, expected).Ok? {
      StanzaErrors(b[FIXED_LEN + 1..], b[FIXED_LEN]);
      hide ParseStanzas;
    }
  }

  lemma {:induction false} StanzaErrors(b: Bytes, count: nat)
    ensures ParseStanzas(b, count).Err? ==> ParseStanzas(b, count) == Err(HeaderCorrupt)
    decreases count
  {
    if count > 0 && SplitStanza(b).Ok? {
      StanzaErrors(SplitStanza(b).value.1, count - 1);
    }
  }

  /** A saved file: a hash and a keyed tag of all the bytes before them, and the body behind them. */
  lemma FileLayout(s: Suite, h: Header, dk: Bytes, pt: Bytes)
    requires Sized(s) && SealedHeader(s, h, dk)
    ensures var b := File(s, h, dk, pt); var end := StanzaAt(h.stanzas, |h.stanzas|);
      && FixedFields(h, b) && (forall i: nat :: i < |h.stanzas| ==> StanzaFields(h, b, i))
      && |b| >= end + 64
      && b[end..end + 32] == s.sha256(b[..end])
      && b[end + 32..end + 64] == s.hmac(s.hkdf(dk, [], HEADER_HMAC_INFO), b[..end])
      && b[end + 64..] == SealedBody(s, KeysOf(h, dk), pt)
  {
    var b, body := File(s, h, dk, pt), SealedBody(s, KeysOf(h, dk), pt);
    SealedTags(s, h, dk);
    hide SealedBody, AuthSpan, FixedFields, StanzaFields, StanzaAt, OnDiskLen, SealedHeader;
    var _, span := HeaderParts(h);
    HeaderLayout(h, b);
    assert b == span + h.hash + h.hmac + body;
    hide Serialize, Encodable, File;
    TagsLie(span, h.hash, h.hmac, b);
    assert b[..|span|] == span;
    BodyLies(span, h.hash, h.hmac, body);
  }

  lemma SealedTags(s: Suite, h: Header, dk: Bytes)
    requires Sized(s) && SealedHeader(s, h, dk)
    ensures Encodable(h) && |h.hash| == 32 && |h.hmac| == 32
    ensures h.hash == s.sha256(AuthSpan(h)) && h.hmac == s.hmac(s.hkdf(dk, [], HEADER_HMAC_INFO), AuthSpan(h))
  {
    hide AuthSpan, Encodable;
    SealIsStable(s, h, dk);
  }

  lemma BodyLies(span: Bytes, hash: Bytes, hmac: Bytes, body: Bytes)
    requires |hash| == 32 && |hmac| == 32
    ensures (span + hash + hmac + body)[|span| + 64..] == body
  {
  }

  // ---------------------------------------------------------------- chunks, blocks and records

  /** The bytes of a chunk's nonce, as `NonceLayout` gives them. */
  ghost predicate IsNonce(b: Bytes, counter: nat, isLast: bool) {
    && |b| == 12 && b[0] == b[1] == b[2] == 0 && b[11] == (if isLast then 1 else 0)
    && forall i: nat :: i < 8 ==> b[10 - i] == counter / Pow256(i) % 256
  }

  lemma NonceExactly(b: Bytes, counter: nat, isLast: bool)
    requires IsNonce(b, counter, isLast)
    ensures b == Stream.ChunkNonce(counter, isLast)
  {
    NonceLayout(counter, isLast);
    var n := Stream.ChunkNonce(counter, isLast);
    hide Stream.ChunkNonce;
    forall j | 0 <= j < 12 ensures b[j] == n[j] {
      if 3 <= j <= 10 {
        var i: nat := 10 - j;
        assert b[10 - i] == counter / Pow256(i) % 256 == n[10 - i];
      }
    }
  }

  lemma {:induction false} ChunksBefore(s: Suite, key: Bytes, pt: Bytes, i: nat) returns (before: Bytes)
    requires Sized(s) && i <= Stream.LastIndex(pt)
    ensures |before| == i * (64 * 1024 + 16) && Stream.Sealed(s, key, pt) == before + Stream.SealedFrom(s, key, pt, i)
    decreases i
  {
    if i == 0 {
      before := [];
      assert [] + Stream.SealedFrom(s, key, pt, 0) == Stream.SealedFrom(s, key, pt, 0);
    } else {
      var earlier := ChunksBefore(s, key, pt, i - 1);
      var chunk, rest := Stream.SealedChunk(s, key, pt, i - 1), Stream.SealedFrom(s, key, pt, i);
      assert |chunk| == 64 * 1024 + 16 && Stream.SealedFrom(s, key, pt, i - 1) == chunk + rest;
      hide Stream.SealedFrom, Stream.SealedChunk, Stream.Sealed;
      before := earlier + chunk;
      Assoc(earlier, chunk, rest);
      assert i * (64 * 1024 + 16) == (i - 1) * (64 * 1024 + 16) + (64 * 1024 + 16);
    }
  }

  /**
   Chunk `i` of a ciphertext: 64 KiB of the plaintext, or for the last what is left, sealed with 16 bytes more under
   the payload key and a nonce of its number, each at its place.
   */
  lemma ChunkLayout(s: Suite, dk: Bytes, prefix: Bytes, pt: Bytes, i: nat, nonce: Bytes)
    requires Sized(s) && i <= |pt| / (64 * 1024) && IsNonce(nonce, i, i == |pt| / (64 * 1024))
    ensures var ct := Stream.Sealed(s, Stream.PayloadKey(s, dk, prefix), pt);
      var chunk := pt[i * (64 * 1024)..Min((i + 1) * (64 * 1024), |pt|)];
      var at := i * (64 * 1024 + 16);
      && |ct| >= at + |chunk| + 16
      && ct[at..at + |chunk| + 16] == s.seal(s.hkdf(dk, prefix, Stream.PAYLOAD_INFO), nonce, chunk)
      && (i == |pt| / (64 * 1024) ==> |ct| == at + |chunk| + 16)
  {
    var key := Stream.PayloadKey(s, dk, prefix);
    var ct := Stream.Sealed(s, key, pt);
    var before := ChunksBefore(s, key, pt, i);
    NonceExactly(nonce, i, i == |pt| / (64 * 1024));
    var chunk, rest := Stream.Chunk(pt, i), Stream.SealedFrom(s, key, pt, i);
    ChunkIs(pt, i);
    var sealed := s.seal(key, nonce, chunk);
    assert sealed <= rest && (i == Stream.LastIndex(pt) ==> sealed == rest);
    hide Stream.Sealed, IsNonce, Stream.ChunkNonce, Stream.SealedFrom, Stream.Chunk;
    SliceOf(before, rest, sealed);
  }

  lemma ChunkIs(pt: Bytes, i: nat)
    requires i <= Stream.LastIndex(pt)
    ensures Stream.Chunk(pt, i) == pt[i * (64 * 1024)..Min((i + 1) * (64 * 1024), |pt|)]
  {
  }

  lemma SliceOf(before: Bytes, rest: Bytes, first: Bytes)
    requires first <= rest
    ensures (before + rest)[|before|..|before| + |first|] == first
  {
  }

  lemma BlockLength(s: Suite, k: BlockStream.Keys, index: nat, payload: Bytes)
    requires Sized(s)
    ensures |BlockStream.Block(s, k, index, payload)| == 36 + |payload|
  {
  }

  lemma {:induction false} BlocksBefore(s: Suite, k: BlockStream.Keys, payloads: seq<Bytes>,
      i: nat) returns (before: Bytes)
    requires Sized(s) && i <= |payloads| && forall j :: 0 <= j < i ==> |payloads[j]| == 1024 * 1024
    ensures |before| == i * (1024 * 1024 + 36)
    ensures BlockStream.BlocksFrom(s, k, payloads, 0) == before + BlockStream.BlocksFrom(s, k, payloads, i)
    decreases i
  {
    hide BlockStream.Block;
    if i == 0 {
      before := [];
      assert [] + BlockStream.BlocksFrom(s, k, payloads, 0) == BlockStream.BlocksFrom(s, k, payloads, 0);
    } else {
      var earlier := BlocksBefore(s, k, payloads, i - 1);
      var block, rest := BlockStream.Block(s, k, i - 1, payloads[i - 1]), BlockStream.BlocksFrom(s, k, payloads, i);
      BlockLength(s, k, i - 1, payloads[i - 1]);
      assert BlockStream.BlocksFrom(s, k, payloads, i - 1) == block + rest;
      hide BlockStream.BlocksFrom;
      before := earlier + block;
      Assoc(earlier, block, rest);
      assert i * (1024 * 1024 + 36) == (i - 1) * (1024 * 1024 + 36) + (1024 * 1024 + 36);
    }
  }

  /** How many blocks with something in them a ciphertext makes. */
  function BlockCount(ct: Bytes): nat { (|ct| + 1024 * 1024 - 1) / (1024 * 1024) }

  /** Block `i` of a framed stream, at its place: a mebibyte of the ciphertext, or what is left of it. */
  lemma FramedLayout(s: Suite, k: BlockStream.Keys, ct: Bytes, i: nat)
    requires Sized(s) && i < BlockCount(ct)
    ensures var at := i * (1024 * 1024 + 36);
      var payload := ct[i * (1024 * 1024)..Min((i + 1) * (1024 * 1024), |ct|)];
      && |BlockStream.Framed(s, k, ct)| >= at + 36 + |payload|
      && BlockStream.Framed(s, k, ct)[at..at + 36 + |payload|] == BlockStream.Block(s, k, i, payload)
  {
    var payloads := BlockStream.Payloads(ct, BlockStream.BLOCK_SIZE);
    PayloadsCount(ct);
    forall j | 0 <= j <= i
      ensures payloads[j] == ct[j * (1024 * 1024)..Min((j + 1) * (1024 * 1024), |ct|)]
      ensures j < i ==> |payloads[j]| == 1024 * 1024
    {
      PayloadsLayout(ct, j);
    }
    var framed := BlockStream.BlocksFrom(s, k, payloads, 0);
    assert BlockStream.Framed(s, k, ct) == framed;
    hide BlockStream.Payloads, BlockStream.Framed, BlockCount, BlockStream.Block, BlockStream.BlocksFrom;
    var before := BlocksBefore(s, k, payloads, i);
    BlockHere(s, k, payloads, i, before, framed);
  }

  lemma BlockHere(s: Suite, k: BlockStream.Keys, payloads: seq<Bytes>, i: nat, before: Bytes, framed: Bytes)
    requires Sized(s) && i < |payloads| && framed == before + BlockStream.BlocksFrom(s, k, payloads, i)
    ensures |framed| >= |before| + 36 + |payloads[i]|
    ensures framed[|before|..|before| + 36 + |payloads[i]|] == BlockStream.Block(s, k, i, payloads[i])
  {
    var block, rest := BlockStream.Block(s, k, i, payloads[i]), BlockStream.BlocksFrom(s, k, payloads, i);
    BlockLength(s, k, i, payloads[i]);
    hide BlockStream.Block;
    assert block <= rest;
    SliceOf(before, rest, block);
  }

  /** A chunk's nonce: three zeros, the counter with its lowest byte last, and whether the chunk is the final one. */
  lemma NonceLayout(counter: nat, isLast: bool)
    ensures var b := Stream.ChunkNonce(counter, isLast);
      && |b| == 12 && b[0] == b[1] == b[2] == 0 && b[11] == (if isLast then 1 else 0)
      && forall i: nat :: i < 8 ==> b[10 - i] == counter / Pow256(i) % 256
  {
    var b := Stream.ChunkNonce(counter, isLast);
    forall i: nat | i < 8 ensures b[10 - i] == counter / Pow256(i) % 256 {
      BEByte(counter, 8, i);
      assert b[3..11] == BE(counter, 8);
      assert b[10 - i] == b[3..11][7 - i];
    }
  }

  /**
   A block on disk: a tag, the length in four bytes and the payload. The tag is that of index, length and payload,
   under a key derived from the data key with index and master seed as salt.
   */
  lemma BlockLayout(s: Suite, k: BlockStream.Keys, index: nat, payload: Bytes, eight: Bytes, four: Bytes)
    requires |eight| == 8 && Spells(eight, index) && |four| == 4 && Spells(four, |payload|)
    ensures BlockStream.Block(s, k, index, payload)
         == s.hmac(s.hkdf(k.dataKey, eight + k.masterSeed, BlockStream.BLOCK_HMAC_INFO), eight + four + payload)
            + four + payload
  {
    SpellsExactly(eight, index);
    SpellsExactly(four, |payload|);
  }

  lemma {:induction false} PayloadsCount(ct: Bytes)
    ensures |BlockStream.Payloads(ct, BlockStream.BLOCK_SIZE)| == BlockCount(ct) + 1
    decreases |ct|
  {
    if ct != [] {
      PayloadsCount(ct[Min(|ct|, BlockStream.BLOCK_SIZE)..]);
    }
  }

  /** The blocks of a stream each hold a mebibyte of the ciphertext, but for the last and the empty one after it. */
  lemma {:induction false} PayloadsLayout(ct: Bytes, i: nat)
    requires i < BlockCount(ct)
    ensures |BlockStream.Payloads(ct, BlockStream.BLOCK_SIZE)| == BlockCount(ct) + 1
    ensures BlockStream.Payloads(ct, BlockStream.BLOCK_SIZE)[i]
         == ct[i * (1024 * 1024)..Min((i + 1) * (1024 * 1024), |ct|)]
    ensures i + 1 < BlockCount(ct) ==> |BlockStream.Payloads(ct, BlockStream.BLOCK_SIZE)[i]| == 1024 * 1024
    decreases |ct|
  {
    PayloadsCount(ct);
    var n := Min(|ct|, BlockStream.BLOCK_SIZE);
    var rest := ct[n..];
    var others := BlockStream.Payloads(rest, BlockStream.BLOCK_SIZE);
    assert BlockStream.Payloads(ct, BlockStream.BLOCK_SIZE) == [ct[..n]] + others;
    hide BlockStream.Payloads;
    if i > 0 {
      assert n == 1024 * 1024 && BlockCount(rest) == BlockCount(ct) - 1;
      PayloadsLayout(rest, i - 1);
      LaterSlice(ct, n, (i - 1) * (1024 * 1024), Min(i * (1024 * 1024), |rest|));
    }
  }

  lemma LaterSlice(ct: Bytes, n: nat, a: nat, b: nat)
    requires n <= |ct| && a <= b <= |ct| - n
    ensures ct[n..][a..b] == ct[n + a..n + b]
  {
  }

  /** A record is refused if it is cut off within its first six bytes, or longer than 64 KiB and 128 bytes. */
  lemma RecordRefusedExactly(b: Bytes)
    ensures Archive.ReadRecord(b).Err? <==>
      b != [] && (|b| < 6 || U32(b[2], b[3], b[4], b[5]) > 64 * 1024 + 128)
  {
    if |b| >= 6 {
      LESums(b[2..6]);
    }
  }

  lemma RecordLayout(tag: nat, value: Bytes)
    requires tag <= 0xFFFF && |value| <= U32_MAX
    ensures var b := Record(tag, value);
      |b| == 6 + |value| && U16(b[0], b[1]) == tag && U32(b[2], b[3], b[4], b[5]) == |value| && b[6..] == value
  {
    var b := Record(tag, value);
    assert b[0..2] == LE(tag, 2) && b[2..6] == LE(|value|, 4);
    FieldLies(b, b, 0, 2, tag);
    FieldLies(b, b, 2, 4, |value|);
  }

  /** The value of a file header: length of the path, path, mode, time and size. */
  lemma FileHeaderLayout(meta: Archive.FileMeta, b: Bytes)
    requires Archive.EncodeHdr(meta) == Ok(b)
    ensures var at := 4 + |meta.path|;
      && |b| == at + 20 && U32(b[0], b[1], b[2], b[3]) == |meta.path| && b[4..at] == meta.path
      && U32(b[at], b[at + 1], b[at + 2], b[at + 3]) == meta.mode
      && U32(b[at + 4], b[at + 5], b[at + 6], b[at + 7])
         + 0x1_0000_0000 * U32(b[at + 8], b[at + 9], b[at + 10], b[at + 11]) == meta.mtime
      && U32(b[at + 12], b[at + 13], b[at + 14], b[at + 15])
         + 0x1_0000_0000 * U32(b[at + 16], b[at + 17], b[at + 18], b[at + 19]) == meta.size
  {
    var at := 4 + |meta.path|;
    Archive.HdrSlices(meta, b);
    assert b[0..4] == b[..4];
    FieldLies(b, b, 0, 4, |meta.path|);
    FieldLies(b, b, at, 4, meta.mode);
    LongLies(b, at + 4, meta.mtime);
    LongLies(b, at + 12, meta.size);
  }

  /** What is accepted as a file header lies there in the same way, with these limits. */
  lemma DecodedFileHeader(s: Suite, b: Bytes, meta: Archive.FileMeta)
    requires Archive.DecodeHdr(s, b) == Ok(meta)
    ensures Archive.EncodeHdr(meta) == Ok(b) && |meta.path| <= 4096 && meta.size <= 256 * 1024 * 1024 * 1024
    ensures Archive.PathAllowed(meta.path) && s.utf8(meta.path)
  {
    var end := 4 + FromLE(b[..4]);
    FromLERoundTrip(b[..4]);
    FromLERoundTrip(b[end..end + 4]);
    FromLERoundTrip(b[end + 4..end + 12]);
    FromLERoundTrip(b[end + 12..end + 20]);
    assert b == b[..4] + b[4..end] + b[end..end + 4] + b[end + 4..end + 12] + b[end + 12..end + 20];
  }

  /** An integer of eight bytes. */
  lemma LongLies(b: Bytes, at: nat, n: nat)
    requires at + 8 <= |b| && b[at..at + 8] == LE(n, 8) && n <= U64_MAX
    ensures n == U32(b[at], b[at + 1], b[at + 2], b[at + 3])
              + 0x1_0000_0000 * U32(b[at + 4], b[at + 5], b[at + 6], b[at + 7])
  {
    var field := b[at..at + 8];
    LEWritten(n, field);
    assert forall i :: 0 <= i < 8 ==> field[i] == b[at + i];
  }

  /** One entry of the usage store: id, count and time of last use. */
  lemma UseLayout(u: Frecency.Use)
    requires |u.id| == 16
    ensures var b := Frecency.UseBytes(u);
      && |b| == 28 && b[..16] == u.id && U32(b[16], b[17], b[18], b[19]) == u.uses
      && U32(b[20], b[21], b[22], b[23]) + 0x1_0000_0000 * U32(b[24], b[25], b[26], b[27]) == u.lastUsed
  {
    var b := Frecency.UseBytes(u);
    assert b[16..20] == LE(u.uses, 4) && b[20..28] == LE(u.lastUsed, 8);
    FieldLies(b, b, 16, 4, u.uses);
    LongLies(b, 20, u.lastUsed);
  }

  // ---------------------------------------------------------------- stanzas

  lemma Fido2TailLayout(x: Fido2Extra, b: Bytes)
    requires x.Serialize() == Ok(b)
    ensures |x.credentialId| <= 1023 && 1 <= |x.relyingPartyId| <= 253
    ensures var at := 2 + |x.credentialId|; var end := at + 1 + |x.relyingPartyId|;
      && |b| == end + |x.saltHash| && U16(b[0], b[1]) == |x.credentialId| && b[2..at] == x.credentialId
      && b[at] == |x.relyingPartyId| && b[at + 1..end] == x.relyingPartyId && b[end..] == x.saltHash
  {
    var at := 2 + |x.credentialId|;
    var end := at + 1 + |x.relyingPartyId|;
    assert b[0..2] == LE(|x.credentialId|, 2) && b[2..at] == x.credentialId && b[at] == |x.relyingPartyId|;
    assert b[at + 1..end] == x.relyingPartyId && b[end..] == x.saltHash;
    FieldLies(b, b, 0, 2, |x.credentialId|);
  }

  lemma TpmTailLayout(x: TpmExtra, b: Bytes)
    requires x.Serialize() == Ok(b)
    ensures |x.sealedBlob| <= 2048
    ensures |b| == 7 + |x.sealedBlob| && b[0] == x.pcrBank && U32(b[1], b[2], b[3], b[4]) == x.pcrMask
    ensures U16(b[5], b[6]) == |x.sealedBlob| && b[7..] == x.sealedBlob
  {
    assert b[1..5] == LE(x.pcrMask, 4) && b[5..7] == LE(|x.sealedBlob|, 2) && b[7..] == x.sealedBlob;
    FieldLies(b, b, 1, 4, x.pcrMask);
    FieldLies(b, b, 5, 2, |x.sealedBlob|);
  }

  /**
   What stanzas hold, in terms of the primitives alone: a nonce and the data key sealed under it, by a key that HKDF
   derives with the vault's id as salt from Argon2id's output on the normalised password, with the device's response
   or the keyfile's digest behind it in a stanza with two factors, or from what the hardware gave. A YubiKey stanza
   begins with the challenge, a hardware stanza ends with its tail.
   */
  lemma StanzaContents(s: Suite, dk: Bytes, pw: Bytes, factor: Bytes, challenge: Bytes, p: Params, nonce: Bytes,
                       fido2: Fido2Extra, tpm: TpmExtra)
    ensures var ikm := s.argon2id(s.nfc(pw), p.salt, p.costs);
      if ikm.Err? then
        && WrapPassword(s, dk, pw, p, Some(nonce)) == Err(ikm.error)
        && WrapYubiKey(s, dk, pw, factor, challenge, p, Some(nonce)) == Err(ikm.error)
        && WrapKeyfile(s, dk, pw, factor, p, Some(nonce)) == Err(ikm.error)
      else
        && WrapPassword(s, dk, pw, p, Some(nonce))
           == Ok(Stanza(1, nonce + s.xseal(s.hkdf(ikm.value, p.vaultId, PW_WRAP_INFO), nonce, dk)))
        && WrapYubiKey(s, dk, pw, factor, challenge, p, Some(nonce))
           == Ok(Stanza(7, challenge
                           + (nonce + s.xseal(s.hkdf(ikm.value + factor, p.vaultId, TWOFA_WRAP_INFO), nonce, dk))))
        && WrapKeyfile(s, dk, pw, factor, p, Some(nonce))
           == Ok(Stanza(8, nonce + s.xseal(s.hkdf(ikm.value + s.sha256(factor), p.vaultId, KEYFILE_WRAP_INFO), nonce,
                                           dk)))
    ensures HardwareSalt(s, p.vaultId) == s.sha256(p.vaultId + FIDO2_SALT_LABEL)
    ensures fido2.Serialize().Ok? ==>
      var wrapped := nonce + s.xseal(s.hkdf(factor, p.vaultId, FIDO2_WRAP_INFO), nonce, dk);
      WrapFido2(s, dk, factor, p.vaultId, fido2, Some(nonce)) == Ok(Stanza(2, wrapped + fido2.Serialize().value))
    ensures tpm.Serialize().Ok? ==>
      var wrapped := nonce + s.xseal(s.hkdf(factor, p.vaultId, TPM_WRAP_INFO), nonce, dk);
      WrapTpm(s, dk, factor, p.vaultId, tpm, Some(nonce)) == Ok(Stanza(4, wrapped + tpm.Serialize().value))
  {
  }
}
