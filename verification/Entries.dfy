/**
 Credential entries: the fields of an entry as records, and the inner key stream over the secret ones
 (format/entry.rs, format/inner_stream.rs).
 */
module Entries {
  import opened Bytes
  import opened Primitives
  import opened Cursors
  import opened Tlv

  const ID := 0x0001
  const TITLE := 0x0002
  const USERNAME := 0x0003
  const PASSWORD := 0x8004
  const URL := 0x0005
  const NOTES := 0x0006
  const TAG := 0x0007
  const OTP_SECRET := 0x8008
  const CREATED_AT := 0x0009
  const MODIFIED_AT := 0x000A
  const EXPIRES_AT := 0x000B
  const CUSTOM_NAME := 0x000C
  const CUSTOM_VALUE := 0x000D
  const CUSTOM_VALUE_PROTECTED := 0x800D

  const MAX_FIELD_LEN := 0x10_0000

  // ---------------------------------------------------------------- the inner stream

  /** Exclusive or of the low `bits` bits. */
  function Xor(a: nat, b: nat, bits: nat): nat {
    if bits == 0 then 0 else (if a % 2 == b % 2 then 0 else 1) + 2 * Xor(a / 2, b / 2, bits - 1)
  }

  lemma {:induction false} XorFits(a: nat, b: nat, bits: nat)
    ensures Xor(a, b, bits) < Pow2(bits)
  {
    if bits > 0 {
      XorFits(a / 2, b / 2, bits - 1);
    }
  }

  lemma {:induction false} XorTwice(a: nat, b: nat, bits: nat)
    requires a < Pow2(bits)
    ensures Xor(Xor(a, b, bits), b, bits) == a
  {
    if bits > 0 {
      var x := Xor(a, b, bits);
      XorTwice(a / 2, b / 2, bits - 1);
      assert x / 2 == Xor(a / 2, b / 2, bits - 1);
    }
  }

  function MaskByte(s: Suite, key: Bytes, at: nat, b: byte): byte {
    XorFits(b, s.keystream(key, at), 8);
    assert Pow2(8) == 256;
    Xor(b, s.keystream(key, at), 8)
  }

  /** The key stream from `offset` on, applied to `data`. */
  function Masked(s: Suite, key: Bytes, offset: nat, data: Bytes): (r: Bytes)
    ensures |r| == |data|
  {
    seq(|data|, i requires 0 <= i < |data| => MaskByte(s, key, offset + i, data[i]))
  }

  lemma MaskedTwice(s: Suite, key: Bytes, offset: nat, data: Bytes)
    ensures Masked(s, key, offset, Masked(s, key, offset, data)) == data
  {
    var once := Masked(s, key, offset, data);
    forall i | 0 <= i < |data| ensures MaskByte(s, key, offset + i, once[i]) == data[i] {
      assert Pow2(8) == 256;
      XorTwice(data[i], s.keystream(key, offset + i), 8);
    }
  }

  lemma {:induction false} XorUnchanged(a: nat, b: nat, bits: nat)
    requires a < Pow2(bits) && b < Pow2(bits)
    ensures Xor(a, b, bits) == a <==> b == 0
    ensures a == 0 ==> Xor(a, b, bits) == b
  {
    if bits > 0 {
      XorUnchanged(a / 2, b / 2, bits - 1);
    }
  }

  lemma HalfThenShift(x: nat, j: nat)
    ensures x / 2 / Pow2(j) == x / Pow2(j + 1)
  {
    var p := Pow2(j);
    var q, r := x / 2 / p, x / 2 % p;
    DivMod(x / 2, p);
    assert x == 2 * (q * p + r) + x % 2 && 2 * (q * p + r) == q * (2 * p) + 2 * r;
    QuotientUnique(x, q, 2 * r + x % 2, 2 * p);
  }

  lemma {:induction false} XorBit(a: nat, b: nat, bits: nat, j: nat)
    requires j < bits
    ensures Xor(a, b, bits) / Pow2(j) % 2 == a / Pow2(j) % 2 <==> b / Pow2(j) % 2 == 0
    decreases bits
  {
    if j > 0 {
      var x := Xor(a, b, bits);
      assert x / 2 == Xor(a / 2, b / 2, bits - 1);
      XorBit(a / 2, b / 2, bits - 1, j - 1);
      HalfThenShift(x, j - 1);
      HalfThenShift(a, j - 1);
      HalfThenShift(b, j - 1);
    }
  }

  /** Each bit of a masked byte is that of the data exactly where the bit of the key stream is 0. */
  lemma MaskedBits(s: Suite, key: Bytes, offset: nat, data: Bytes, i: nat, j: nat)
    requires i < |data| && j < 8
    ensures Masked(s, key, offset, data)[i] / Pow2(j) % 2 == data[i] / Pow2(j) % 2
      <==> s.keystream(key, offset + i) / Pow2(j) % 2 == 0
  {
    XorBit(data[i], s.keystream(key, offset + i), 8, j);
  }

  /** Masking zeros gives the key stream itself, from `offset` on. */
  lemma MaskedZeros(s: Suite, key: Bytes, offset: nat, n: nat, i: nat)
    requires i < n
    ensures Masked(s, key, offset, Zeros(n))[i] == s.keystream(key, offset + i)
  {
    assert Pow2(8) == 256;
    XorUnchanged(0, s.keystream(key, offset + i), 8);
  }

  /** The value shows the secret exactly where the key stream, from `at` on, is zero. */
  ghost predicate Hides(s: Suite, key: Bytes, at: nat, secret: Bytes, value: Bytes) {
    && |value| == |secret|
    && forall i {:trigger value[i]} :: 0 <= i < |value| ==> (value[i] == secret[i] <==> s.keystream(key, at + i) == 0)
  }

  lemma MaskedHides(s: Suite, key: Bytes, offset: nat, data: Bytes)
    ensures Hides(s, key, offset, data, Masked(s, key, offset, data))
  {
    forall i | 0 <= i < |data|
      ensures Masked(s, key, offset, data)[i] == data[i] <==> s.keystream(key, offset + i) == 0
    {
      assert Pow2(8) == 256;
      XorUnchanged(data[i], s.keystream(key, offset + i), 8);
    }
  }

  /** The stream as a save uses it: each secret takes up where the one before left off. */
  class InnerStream {
    const suite: Suite
    const key: Bytes
    var offset: nat

    constructor (suite: Suite, key: Bytes)
      ensures this.suite == suite && this.key == key && offset == 0
    {
      this.suite, this.key := suite, key;
      offset := 0;
    }

    method Apply(data: Bytes) returns (r: Bytes)
      modifies this
      ensures r == Masked(suite, key, old(offset), data) && offset == old(offset) + |data|
    {
      r := Masked(suite, key, offset, data);
      offset := offset + |data|;
    }
  }

  // ---------------------------------------------------------------- the data model

  type i64 = x: int | -0x8000_0000_0000_0000 <= x < 0x8000_0000_0000_0000

  /** A secret value: typed in since the vault was opened, or still encrypted as it was loaded. */
  datatype Protected = Plain(bytes: Bytes) | Encrypted(ct: Bytes, key: Bytes, offset: nat) {
    function Expose(s: Suite): Bytes {
      match this
      case Plain(b) => b
      case Encrypted(ct, key, offset) => Masked(s, key, offset, ct)
    }

    function Len(): nat { if Plain? then |bytes| else |ct| }
  }

  lemma ExposedLen(s: Suite, p: Protected)
    ensures |p.Expose(s)| == p.Len()
  {
  }

  datatype CustomValue = Open(text: Bytes) | Secret(secret: Protected)

  datatype CustomField = CustomField(name: Bytes, value: CustomValue)

  datatype Entry = Entry(id: Bytes, title: Bytes, username: Bytes, password: Protected, url: Bytes, notes: Bytes,
                         tags: seq<Bytes>, otpSecret: Option<Protected>, createdAt: i64, modifiedAt: i64,
                         expiresAt: Option<i64>, customFields: seq<CustomField>)

  const BLANK := Entry(Zeros(16), [], [], Plain([]), [], [], [], None, 0, 0, None, [])

  /** Two's complement. */
  function I64Bytes(x: i64): (r: Bytes)
    ensures |r| == 8
  {
    LE(if x < 0 then x + (U64_MAX + 1) else x, 8)
  }

  /** The number the eight bytes spell, the highest byte signed. */
  lemma TwosComplement(x: i64)
    ensures var b := I64Bytes(x);
      x == U32(b[0], b[1], b[2], b[3]) + 0x1_0000_0000 * (U32(b[4], b[5], b[6], 0)
                                                          + 0x100_0000 * (if b[7] < 128 then b[7] as int
                                                              else b[7] as int - 256))
  {
    LEWritten(if x < 0 then x + (U64_MAX + 1) else x, I64Bytes(x));
  }

  function DecodeI64(v: Bytes): Result<i64> {
    if |v| != 8 then Err(BodyMalformed)
    else
      FromLERoundTrip(v);
      Pow256Widths();
      var n := FromLE(v);
      Ok(if n > I64_MAX then n - (U64_MAX + 1) else n)
  }

  const I64_MAX := 0x7FFF_FFFF_FFFF_FFFF

  lemma I64RoundTrip(x: i64)
    ensures DecodeI64(I64Bytes(x)) == Ok(x)
  {
    Pow256Widths();
    LERoundTrip(if x < 0 then x + (U64_MAX + 1) else x, 8);
  }

  function DecodeStr(s: Suite, v: Bytes): Result<Bytes> { if s.utf8(v) then Ok(v) else Err(BodyMalformed) }

  // ---------------------------------------------------------------- writing

  /** The two records of a custom field. */
  function PairItems(s: Suite, f: CustomField, key: Bytes, offset: nat): (r: seq<Item>)
    ensures |r| == 2
  {
    match f.value
    case Open(text) => [Item(CUSTOM_NAME, f.name), Item(CUSTOM_VALUE, text)]
    case Secret(p) => [Item(CUSTOM_NAME, f.name), Item(CUSTOM_VALUE_PROTECTED, Masked(s, key, offset, p.Expose(s)))]
  }

  function SecretOf(f: CustomField): nat { if f.value.Secret? then f.value.secret.Len() else 0 }

  function CustomItems(s: Suite, fields: seq<CustomField>, key: Bytes, offset: nat): seq<Item> {
    if fields == [] then []
    else PairItems(s, fields[0], key, offset) + CustomItems(s, fields[1..], key, offset + SecretOf(fields[0]))
  }

  function CustomSecretLen(fields: seq<CustomField>): nat {
    if fields == [] then 0 else SecretOf(fields[0]) + CustomSecretLen(fields[1..])
  }

  function TagItems(tags: seq<Bytes>): seq<Item> { seq(|tags|, i requires 0 <= i < |tags| => Item(TAG, tags[i])) }

  function OtpItems(s: Suite, otp: Option<Protected>, key: Bytes, offset: nat): seq<Item> {
    match otp
    case None => []
    case Some(p) => [Item(OTP_SECRET, Masked(s, key, offset, p.Expose(s)))]
  }

  function OtpLen(e: Entry): nat { if e.otpSecret.Some? then e.otpSecret.value.Len() else 0 }

  function TimeItems(e: Entry): seq<Item> {
    [Item(CREATED_AT, I64Bytes(e.createdAt)), Item(MODIFIED_AT, I64Bytes(e.modifiedAt))]
    + if e.expiresAt.Some? then [Item(EXPIRES_AT, I64Bytes(e.expiresAt.value))] else []
  }

  function HeadItems(s: Suite, e: Entry, key: Bytes, offset: nat): seq<Item> {
    [Item(ID, e.id), Item(TITLE, e.title), Item(USERNAME, e.username),
     Item(PASSWORD, Masked(s, key, offset, e.password.Expose(s))), Item(URL, e.url), Item(NOTES, e.notes)]
  }

  /** The records of an entry whose secrets start at `offset` of the key stream. */
  function ItemsOf(s: Suite, e: Entry, key: Bytes, offset: nat): seq<Item> {
    var otpAt := offset + e.password.Len();
    HeadItems(s, e, key, offset) + (TagItems(e.tags) + (OtpItems(s, e.otpSecret, key, otpAt)
      + (TimeItems(e) + CustomItems(s, e.customFields, key, otpAt + OtpLen(e)))))
  }

  /** How far an entry's secrets advance the key stream. */
  function SecretLen(e: Entry): nat { e.password.Len() + OtpLen(e) + CustomSecretLen(e.customFields) }

  function EntryBytes(s: Suite, e: Entry, key: Bytes, offset: nat): Bytes { Records(ItemsOf(s, e, key, offset)) }

  // ---------------------------------------------------------------- what a written entry shows of its secrets

  lemma {:induction false} CustomCount(s: Suite, fields: seq<CustomField>, key: Bytes, offset: nat)
    ensures |CustomItems(s, fields, key, offset)| == 2 * |fields|
    decreases |fields|
  {
    hide PairItems;
    if fields != [] {
      CustomCount(s, fields[1..], key, offset + SecretOf(fields[0]));
    }
  }

  /** The two records of a custom field whose value, if it is secret, is masked from `at` on. */
  ghost predicate Shows(s: Suite, f: CustomField, key: Bytes, at: nat, pair: seq<Item>) {
    && |pair| == 2 && pair[0] == Item(0x000C, f.name)
    && match f.value
       case Open(text) => pair[1] == Item(0x000D, text)
       case Secret(p) => pair[1].tag == 0x800D && Hides(s, key, at, p.Expose(s), pair[1].value)
  }

  lemma PairShows(s: Suite, f: CustomField, key: Bytes, offset: nat)
    ensures Shows(s, f, key, offset, PairItems(s, f, key, offset))
  {
    hide Masked, Protected.Expose, Hides;
    if f.value.Secret? {
      MaskedHides(s, key, offset, f.value.secret.Expose(s));
    }
  }

  /** A protected field's value lies behind its name, masked from where the earlier secrets end. */
  lemma {:induction false} CustomHidden(s: Suite, fields: seq<CustomField>, key: Bytes, offset: nat, j: nat)
    requires j < |fields|
    ensures |CustomItems(s, fields, key, offset)| == 2 * |fields|
    ensures Shows(s, fields[j], key, offset + CustomSecretLen(fields[..j]),
      CustomItems(s, fields, key, offset)[2 * j..2 * j + 2])
    decreases |fields|
  {
    hide Shows, PairItems;
    CustomCount(s, fields, key, offset);
    var at := offset + SecretOf(fields[0]);
    var first, rest := PairItems(s, fields[0], key, offset), CustomItems(s, fields[1..], key, at);
    assert CustomItems(s, fields, key, offset) == first + rest;
    if j > 0 {
      CustomHidden(s, fields[1..], key, at, j - 1);
      assert fields[..j][1..] == fields[1..][..j - 1];
      assert (first + rest)[2 * j..2 * j + 2] == rest[2 * (j - 1)..2 * (j - 1) + 2];
    } else {
      PairShows(s, fields[0], key, offset);
      assert (first + rest)[0..2] == first;
    }
  }

  /**
   The records of an entry, by the tags the format gives them. Password, one-time-password secret and protected
   custom values are masked with the key stream, each from where the one before it ends.
   */
  lemma SecretsHidden(s: Suite, e: Entry, key: Bytes, offset: nat)
    ensures var items := ItemsOf(s, e, key, offset); var n := |e.tags|;
      && |items| >= 6 + n
      && items[..3] == [Item(0x0001, e.id), Item(0x0002, e.title), Item(0x0003, e.username)]
      && items[3].tag == 0x8004 && Hides(s, key, offset, e.password.Expose(s), items[3].value)
      && items[4..6] == [Item(0x0005, e.url), Item(0x0006, e.notes)]
      && (forall i :: 0 <= i < n ==> items[6 + i] == Item(0x0007, e.tags[i]))
      && (e.otpSecret.Some? ==>
          && |items| > 6 + n && items[6 + n].tag == 0x8008
          && Hides(s, key, offset + e.password.Len(), e.otpSecret.value.Expose(s), items[6 + n].value))
      && (var at := 6 + n + if e.otpSecret.Some? then 1 else 0;
          var timesAt := at + if e.expiresAt.Some? then 3 else 2;
          var customAt := offset + e.password.Len() + OtpLen(e);
          && |items| >= timesAt
          && items[at] == Item(0x0009, I64Bytes(e.createdAt)) && items[at + 1] == Item(0x000A, I64Bytes(e.modifiedAt))
          && (e.expiresAt.Some? ==> items[at + 2] == Item(0x000B, I64Bytes(e.expiresAt.value)))
          && items[timesAt..] == CustomItems(s, e.customFields, key, customAt))
  {
    hide Hides, Protected.Expose, Masked, CustomItems, I64Bytes;
    MaskedHides(s, key, offset, e.password.Expose(s));
    if e.otpSecret.Some? {
      MaskedHides(s, key, offset + e.password.Len(), e.otpSecret.value.Expose(s));
    }
    var custom := CustomItems(s, e.customFields, key, offset + e.password.Len() + OtpLen(e));
    var head, tags, otp := HeadItems(s, e, key, offset), TagItems(e.tags),
      OtpItems(s, e.otpSecret, key, offset + e.password.Len());
    assert ItemsOf(s, e, key, offset) == head + tags + otp + TimeItems(e) + custom;
  }

  // ---------------------------------------------------------------- reading

  /** The entry read so far, a custom field's name still without its value, and the place in the key stream. */
  datatype Reading = Reading(entry: Entry, name: Option<Bytes>, offset: nat) {
    /** A name without a value is a field with an empty one. */
    function Close(): Reading {
      match name
      case None => this
      case Some(n) => Reading(entry.(customFields := entry.customFields + [CustomField(n, Open([]))]), None, offset)
    }

    function Named(): Bytes { if name.Some? then name.value else [] }

    function With(e: Entry): Reading { Reading(e, name, offset) }
  }

  /** Take in one record; unknown tags are passed over. */
  function Take(s: Suite, key: Bytes, r: Reading, tag: nat, v: Bytes): (out: Result<Reading>)
    ensures out.Err? ==> out.error == BodyMalformed
  {
    if tag == CUSTOM_VALUE then
      var text :- DecodeStr(s, v);
      Ok(Reading(r.entry.(customFields := r.entry.customFields + [CustomField(r.Named(), Open(text))]), None, r.offset))
    else if tag == CUSTOM_VALUE_PROTECTED then
      var field := CustomField(r.Named(), Secret(Encrypted(v, key, r.offset)));
      Ok(Reading(r.entry.(customFields := r.entry.customFields + [field]), None, r.offset + |v|))
    else
      var c := r.Close();
      var e := c.entry;
      if tag == ID then (if |v| == 16 then Ok(c.With(e.(id := v))) else Err(BodyMalformed))
      else if tag == TITLE then
        var t :- DecodeStr(s, v);
        Ok(c.With(e.(title := t)))
      else if tag == USERNAME then
        var t :- DecodeStr(s, v);
        Ok(c.With(e.(username := t)))
      else if tag == PASSWORD then
        Ok(Reading(e.(password := Encrypted(v, key, c.offset)), None, c.offset + |v|))
      else if tag == URL then
        var t :- DecodeStr(s, v);
        Ok(c.With(e.(url := t)))
      else if tag == NOTES then
        var t :- DecodeStr(s, v);
        Ok(c.With(e.(notes := t)))
      else if tag == TAG then
        var t :- DecodeStr(s, v);
        Ok(c.With(e.(tags := e.tags + [t])))
      else if tag == OTP_SECRET then
        Ok(Reading(e.(otpSecret := Some(Encrypted(v, key, c.offset))), None, c.offset + |v|))
      else if tag == CREATED_AT then
        var t :- DecodeI64(v);
        Ok(c.With(e.(createdAt := t)))
      else if tag == MODIFIED_AT then
        var t :- DecodeI64(v);
        Ok(c.With(e.(modifiedAt := t)))
      else if tag == EXPIRES_AT then
        var t :- DecodeI64(v);
        Ok(c.With(e.(expiresAt := Some(t))))
      else if tag == CUSTOM_NAME then
        var t :- DecodeStr(s, v);
        Ok(Reading(e, Some(t), c.offset))
      else Ok(c)
  }

  function ReadFields(s: Suite, key: Bytes, b: Bytes, r: Reading): (out: Result<Reading>)
    ensures out.Err? ==> out.error == BodyMalformed
    decreases |b|
  {
    match NextRecord(b, MAX_FIELD_LEN)
    case Err(e) => Err(e)
    case Ok(None) => Ok(r.Close())
    case Ok(Some((tag, v, rest))) =>
      var next :- Take(s, key, r, tag, v);
      ReadFields(s, key, rest, next)
  }

  /** An entry, and where its secrets leave the key stream. */
  function ParsedEntry(s: Suite, key: Bytes, b: Bytes, offset: nat): (out: Result<(Entry, nat)>)
    ensures out.Err? ==> out.error == BodyMalformed
  {
    var r :- ReadFields(s, key, b, Reading(BLANK, None, offset));
    Ok((r.entry, r.offset))
  }

  // ---------------------------------------------------------------- the methods

  /** With `out` written, the fields from `i` on make it `whole`. */
  ghost predicate CustomLeft(s: Suite, fields: seq<CustomField>, key: Bytes, i: nat, at: nat, out: Bytes, whole: Bytes,
      last: nat) {
    && i <= |fields| && out + Records(CustomItems(s, fields[i..], key, at)) == whole
    && at + CustomSecretLen(fields[i..]) == last
  }

  lemma CustomLeftStep(s: Suite, fields: seq<CustomField>, key: Bytes, i: nat, at: nat, out: Bytes, whole: Bytes,
      last: nat)
    requires CustomLeft(s, fields, key, i, at, out, whole, last) && i < |fields|
    ensures var pair := PairItems(s, fields[i], key, at);
      CustomLeft(s, fields, key, i + 1, at + SecretOf(fields[i]),
                 out + Record(pair[0].tag, pair[0].value) + Record(pair[1].tag, pair[1].value), whole, last)
  {
    hide Record, PairItems, SecretOf;
    var pair := PairItems(s, fields[i], key, at);
    assert fields[i..][0] == fields[i] && fields[i..][1..] == fields[i + 1..];
    assert pair == [pair[0], pair[1]];
    PairOfRecords(out, pair[0], pair[1], CustomItems(s, fields[i + 1..], key, at + SecretOf(fields[i])));
  }

  lemma CustomLeftEnds(s: Suite, fields: seq<CustomField>, key: Bytes, at: nat, out: Bytes, whole: Bytes, last: nat)
    ensures CustomLeft(s, fields, key, |fields|, at, out, whole, last) ==> out == whole && at == last
    ensures CustomLeft(s, fields, key, 0, at, [], Records(CustomItems(s, fields, key, at)),
      at + CustomSecretLen(fields))
  {
    assert fields[|fields|..] == [] && fields[0..] == fields && out + [] == out;
    assert [] + Records(CustomItems(s, fields, key, at)) == Records(CustomItems(s, fields, key, at));
  }

  method SerializeCustom(fields: seq<CustomField>, inner: InnerStream) returns (out: Bytes)
    modifies inner
    ensures out == Records(CustomItems(inner.suite, fields, inner.key, old(inner.offset)))
    ensures inner.offset == old(inner.offset) + CustomSecretLen(fields)
  {
    hide Record, Records, CustomItems, CustomSecretLen, CustomLeft, Masked;
    out := [];
    ghost var s, key := inner.suite, inner.key;
    ghost var whole, last := Records(CustomItems(s, fields, key, inner.offset)), inner.offset + CustomSecretLen(fields);
    CustomLeftEnds(s, fields, key, inner.offset, [], [], 0);
    for i := 0 to |fields|
      invariant CustomLeft(s, fields, key, i, inner.offset, out, whole, last)
    {
      var f := fields[i];
      CustomLeftStep(s, fields, key, i, inner.offset, out, whole, last);
      out := out + Record(CUSTOM_NAME, f.name);
      match f.value {
        case Open(text) => out := out + Record(CUSTOM_VALUE, text);
        case Secret(p) =>
          ExposedLen(inner.suite, p);
          var ct := inner.Apply(p.Expose(inner.suite));
          out := out + Record(CUSTOM_VALUE_PROTECTED, ct);
      }
    }
    CustomLeftEnds(s, fields, key, inner.offset, out, whole, last);
  }

  lemma PairOfRecords(out: Bytes, a: Item, b: Item, rest: seq<Item>)
    ensures out + Records([a, b] + rest) == out + Record(a.tag, a.value) + Record(b.tag, b.value) + Records(rest)
  {
    hide Record;
    var x, y, z := Record(a.tag, a.value), Record(b.tag, b.value), Records(rest);
    assert ([a, b] + rest)[1..] == [b] + rest && ([b] + rest)[1..] == rest;
    assert Records([a, b] + rest) == x + (y + z);
    assert out + (x + (y + z)) == out + x + y + z;
  }

  method SerializeEntry(e: Entry, inner: InnerStream) returns (out: Bytes)
    modifies inner
    ensures out == EntryBytes(inner.suite, e, inner.key, old(inner.offset))
    ensures inner.offset == old(inner.offset) + SecretLen(e)
  {
    hide Record, Records, Masked, I64Bytes, CustomItems;
    ghost var s, key, start := inner.suite, inner.key, inner.offset;
    ghost var items: seq<Item> := [];
    out := [];
    assert out == Records(items) by {
      NoRecords();
    }
    var password := inner.Apply(e.password.Expose(inner.suite));
    var head := [Item(ID, e.id), Item(TITLE, e.title), Item(USERNAME, e.username), Item(PASSWORD, password),
                 Item(URL, e.url), Item(NOTES, e.notes)];
    out := WriteItems(out, items, head);
    items := items + head;
    assert items == HeadItems(s, e, key, start);
    var tags := seq(|e.tags|, i requires 0 <= i < |e.tags| => Item(TAG, e.tags[i]));
    out := WriteItems(out, items, tags);
    items := items + tags;
    if e.otpSecret.Some? {
      var otp := inner.Apply(e.otpSecret.value.Expose(inner.suite));
      out := WriteItems(out, items, [Item(OTP_SECRET, otp)]);
      items := items + [Item(OTP_SECRET, otp)];
    }
    assert items == HeadItems(s, e, key, start) + TagItems(e.tags) + OtpItems(s, e.otpSecret, key,
      start + e.password.Len());
    out := WriteItems(out, items, TimeItems(e));
    items := items + TimeItems(e);
    ghost var at := inner.offset;
    var custom := SerializeCustom(e.customFields, inner);
    RecordsConcat(items, CustomItems(s, e.customFields, key, at));
    assert items + CustomItems(s, e.customFields, key, at) == ItemsOf(s, e, key, start);
    out := out + custom;
  }

  method ParseEntry(s: Suite, bytes: Bytes, key: Bytes, offset: nat) returns (r: Result<(Entry, nat)>)
    ensures r == ParsedEntry(s, key, bytes, offset)
  {
    var cur := new Cursor(bytes);
    var reading := Reading(BLANK, None, offset);
    ghost var whole := ReadFields(s, key, bytes, reading);
    hide Take, NextRecord;
    assert bytes[0..] == bytes;
    while true
      invariant fresh(cur) && cur.Valid()
      invariant ReadFields(s, key, cur.Rest(), reading) == whole
      decreases |cur.Rest()|
    {
      var record := ReadRecordAt(cur, MAX_FIELD_LEN);
      if record.Err? {
        return Err(record.error);
      }
      if record.value.None? {
        break;
      }
      var (tag, value) := record.value.value;
      var next := Take(s, key, reading, tag, value);
      if next.Err? {
        return Err(next.error);
      }
      reading := next.value;
    }
    var done := reading.Close();
    r := Ok((done.entry, done.offset));
  }

  // ---------------------------------------------------------------- round trip

  /** What a field's holder sees: the secrets in the clear. */
  function ShownField(s: Suite, f: CustomField): CustomField {
    if f.value.Secret? then CustomField(f.name, Secret(Plain(f.value.secret.Expose(s)))) else f
  }

  function ShownFields(s: Suite, fields: seq<CustomField>): (r: seq<CustomField>)
    ensures |r| == |fields|
  {
    if fields == [] then [] else [ShownField(s, fields[0])] + ShownFields(s, fields[1..])
  }

  function Shown(s: Suite, e: Entry): Entry {
    e.(password := Plain(e.password.Expose(s)),
       otpSecret := if e.otpSecret.Some? then Some(Plain(e.otpSecret.value.Expose(s))) else None,
       customFields := ShownFields(s, e.customFields))
  }

  function Reseal(s: Suite, p: Protected, key: Bytes, offset: nat): Protected {
    Encrypted(Masked(s, key, offset, p.Expose(s)), key, offset)
  }

  function ResealedField(s: Suite, f: CustomField, key: Bytes, offset: nat): CustomField {
    if f.value.Secret? then CustomField(f.name, Secret(Reseal(s, f.value.secret, key, offset))) else f
  }

  function ResealedFields(s: Suite, fields: seq<CustomField>, key: Bytes, offset: nat): seq<CustomField> {
    if fields == [] then []
    else [ResealedField(s, fields[0], key, offset)] + ResealedFields(s, fields[1..], key, offset + SecretOf(fields[0]))
  }

  /** The entry as it is loaded again: the same fields, its secrets encrypted under the new key. */
  function Resealed(s: Suite, e: Entry, key: Bytes, offset: nat): Entry {
    var otpAt := offset + e.password.Len();
    e.(password := Reseal(s, e.password, key, offset),
       otpSecret := if e.otpSecret.Some? then Some(Reseal(s, e.otpSecret.value, key, otpAt)) else None,
       customFields := ResealedFields(s, e.customFields, key, otpAt + OtpLen(e)))
  }

  lemma {:induction false} ResealedFieldsShown(s: Suite, fields: seq<CustomField>, key: Bytes, offset: nat)
    ensures ShownFields(s, ResealedFields(s, fields, key, offset)) == ShownFields(s, fields)
    decreases |fields|
  {
    hide Masked;
    if fields != [] {
      var f := fields[0];
      ResealedFieldsShown(s, fields[1..], key, offset + SecretOf(f));
      if f.value.Secret? {
        MaskedTwice(s, key, offset, f.value.secret.Expose(s));
      }
      var out := ResealedFields(s, fields, key, offset);
      assert out[1..] == ResealedFields(s, fields[1..], key, offset + SecretOf(f));
    }
  }

  /** Its holder sees no difference. */
  lemma ResealedShown(s: Suite, e: Entry, key: Bytes, offset: nat)
    ensures Shown(s, Resealed(s, e, key, offset)) == Shown(s, e)
  {
    hide Masked;
    var otpAt := offset + e.password.Len();
    MaskedTwice(s, key, offset, e.password.Expose(s));
    if e.otpSecret.Some? {
      MaskedTwice(s, key, otpAt, e.otpSecret.value.Expose(s));
    }
    ResealedFieldsShown(s, e.customFields, key, otpAt + OtpLen(e));
  }

  /** The values have the widths and encodings their Rust types give them. */
  ghost predicate Typed(s: Suite, e: Entry) {
    && |e.id| == 16 && s.utf8(e.title) && s.utf8(e.username) && s.utf8(e.url) && s.utf8(e.notes)
    && (forall i :: 0 <= i < |e.tags| ==> s.utf8(e.tags[i]))
    && TypedFields(s, e.customFields)
  }

  ghost predicate TypedFields(s: Suite, fields: seq<CustomField>) {
    forall i :: 0 <= i < |fields| ==> s.utf8(fields[i].name) && (fields[i].value.Open? ==> s.utf8(fields[i].value.text))
  }

  /** Take in records one after another. */
  function TakeAll(s: Suite, key: Bytes, items: seq<Item>, r: Reading): (out: Result<Reading>)
    ensures out.Err? ==> out.error == BodyMalformed
    decreases |items|
  {
    if items == [] then Ok(r)
    else
      var next :- Take(s, key, r, items[0].tag, items[0].value);
      TakeAll(s, key, items[1..], next)
  }

  lemma {:induction false} TakeAllConcat(s: Suite, key: Bytes, a: seq<Item>, b: seq<Item>, r: Reading)
    ensures TakeAll(s, key, a + b, r) ==
      match TakeAll(s, key, a, r) case Err(e) => Err(e) case Ok(q) => TakeAll(s, key, b, q)
    decreases |a|
  {
    hide Take;
    if a == [] {
      assert a + b == b;
    } else {
      assert (a + b)[1..] == a[1..] + b;
      var next := Take(s, key, r, a[0].tag, a[0].value);
      if next.Ok? {
        TakeAllConcat(s, key, a[1..], b, next.value);
      }
    }
  }

  /** Reading written records is taking them in, unless one is longer than a field may be. */
  lemma {:induction false} ReadRecords(s: Suite, key: Bytes, items: seq<Item>, r: Reading)
    requires Framable(items)
    ensures ReadFields(s, key, Records(items), r) ==
      if !WithinLimit(items, MAX_FIELD_LEN) then Err(BodyMalformed)
      else match TakeAll(s, key, items, r) case Err(e) => Err(e) case Ok(q) => Ok(q.Close())
    decreases |items|
  {
    hide Take, Record, NextRecord;
    if items == [] {
      NothingNext(MAX_FIELD_LEN);
    } else {
      NextOwnRecord(items[0].tag, items[0].value, Records(items[1..]), MAX_FIELD_LEN);
      WithinLimitFirst(items, MAX_FIELD_LEN);
      var next := Take(s, key, r, items[0].tag, items[0].value);
      if next.Ok? {
        ReadRecords(s, key, items[1..], next.value);
      }
    }
  }

  /** The tags an entry's records have; readers pass over all others. */
  predicate KnownTag(tag: nat) {
    1 <= tag <= 3 || 5 <= tag <= 7 || 9 <= tag <= 13 || tag in {0x8004, 0x8008, 0x800D}
  }

  /** A name that waits for its value is closed by any record but a value. */
  lemma CloseFirst(s: Suite, key: Bytes, r: Reading, tag: nat, v: Bytes)
    requires tag != CUSTOM_VALUE && tag != CUSTOM_VALUE_PROTECTED
    ensures Take(s, key, r.Close(), tag, v) == Take(s, key, r, tag, v)
    ensures !KnownTag(tag) ==> Take(s, key, r, tag, v) == Ok(r.Close())
  {
  }

  /**
   A record with a tag the reader does not know changes nothing, wherever it stands, unless it comes between a
   custom field's name and its value.
   */
  lemma UnknownFieldIgnored(s: Suite, key: Bytes, a: seq<Item>, unknown: Item, b: seq<Item>, offset: nat)
    requires Framable(a + [unknown] + b) && !KnownTag(unknown.tag) && |unknown.value| <= 1024 * 1024
    requires b == [] || (b[0].tag != CUSTOM_VALUE && b[0].tag != CUSTOM_VALUE_PROTECTED)
    ensures ParsedEntry(s, key, Records(a + [unknown] + b), offset) == ParsedEntry(s, key, Records(a + b), offset)
  {
    var start := Reading(BLANK, None, offset);
    FramableParts(a, unknown, b);
    ReadRecords(s, key, a + [unknown] + b, start);
    ReadRecords(s, key, a + b, start);
    WithinLimitConcat(a + [unknown], b, MAX_FIELD_LEN);
    WithinLimitConcat(a, [unknown], MAX_FIELD_LEN);
    WithinLimitConcat(a, b, MAX_FIELD_LEN);
    assert WithinLimit([unknown], MAX_FIELD_LEN);
    hide ReadFields, Records, Framable, WithinLimit;
    TakeAllConcat(s, key, a + [unknown], b, start);
    TakeAllConcat(s, key, a, [unknown], start);
    TakeAllConcat(s, key, a, b, start);
    var before := TakeAll(s, key, a, start);
    if before.Ok? {
      UnknownTaken(s, key, before.value, unknown, b);
    }
    hide TakeAll;
  }

  /** A custom field's name without a value, at the end or before any other record, is a field with an empty one. */
  lemma NameAlone(s: Suite, key: Bytes, a: seq<Item>, name: Bytes, offset: nat)
    requires Framable(a) && s.utf8(name) && |name| <= 1024 * 1024 && ParsedEntry(s, key, Records(a), offset).Ok?
    ensures var (e, end) := ParsedEntry(s, key, Records(a), offset).value;
      ParsedEntry(s, key, Records(a + [Item(0x000C, name)]), offset)
      == Ok((e.(customFields := e.customFields + [CustomField(name, Open([]))]), end))
  {
    OneMoreRead(s, key, a, Item(0x000C, name), offset);
  }

  /** A value without a name is a field with an empty one. */
  lemma ValueAlone(s: Suite, key: Bytes, a: seq<Item>, text: Bytes, offset: nat)
    requires Framable(a) && s.utf8(text) && |text| <= 1024 * 1024 && ParsedEntry(s, key, Records(a), offset).Ok?
    requires a == [] || a[|a| - 1].tag != 0x000C
    ensures var (e, end) := ParsedEntry(s, key, Records(a), offset).value;
      ParsedEntry(s, key, Records(a + [Item(0x000D, text)]), offset)
      == Ok((e.(customFields := e.customFields + [CustomField([], Open(text))]), end))
  {
    OneMoreRead(s, key, a, Item(0x000D, text), offset);
    NoNameWaits(s, key, a, Reading(BLANK, None, offset));
  }

  lemma OneMoreRead(s: Suite, key: Bytes, a: seq<Item>, last: Item, offset: nat)
    requires Framable(a) && last.tag <= 0xFFFF && |last.value| <= MAX_FIELD_LEN
    requires ParsedEntry(s, key, Records(a), offset).Ok?
    ensures var start := Reading(BLANK, None, offset); var before := TakeAll(s, key, a, start);
      && before.Ok? && ParsedEntry(s, key, Records(a), offset) == Ok((before.value.Close().entry, before.value.offset))
      && ParsedEntry(s, key, Records(a + [last]), offset) ==
           match Take(s, key, before.value, last.tag, last.value)
           case Err(e) => Err(e)
           case Ok(q) => Ok((q.Close().entry, q.offset))
  {
    var start, one := Reading(BLANK, None, offset), [last];
    ReadRecords(s, key, a, start);
    ReadRecords(s, key, a + one, start);
    WithinLimitConcat(a, one, MAX_FIELD_LEN);
    assert WithinLimit(one, MAX_FIELD_LEN);
    hide ReadFields, Records, WithinLimit, Take;
    TakeAllConcat(s, key, a, one, start);
    assert one[1..] == [];
  }

  lemma {:induction false} NoNameWaits(s: Suite, key: Bytes, a: seq<Item>, r: Reading)
    requires TakeAll(s, key, a, r).Ok?
    requires if a == [] then r.name.None? else a[|a| - 1].tag != CUSTOM_NAME
    ensures TakeAll(s, key, a, r).value.name.None?
    decreases |a|
  {
    if a != [] {
      var next := Take(s, key, r, a[0].tag, a[0].value).value;
      if |a| == 1 {
        assert a[1..] == [];
      } else {
        hide Take;
      }
      NoNameWaits(s, key, a[1..], next);
    }
  }

  lemma FramableParts(a: seq<Item>, unknown: Item, b: seq<Item>)
    requires Framable(a + [unknown] + b)
    ensures Framable(a + b)
  {
    var all := a + [unknown] + b;
    forall i | 0 <= i < |a + b| ensures (a + b)[i].tag <= 0xFFFF && |(a + b)[i].value| <= U32_MAX {
      assert (a + b)[i] == all[if i < |a| then i else i + 1];
    }
  }

  lemma UnknownTaken(s: Suite, key: Bytes, r: Reading, unknown: Item, b: seq<Item>)
    requires !KnownTag(unknown.tag) && (b == [] || (b[0].tag != CUSTOM_VALUE && b[0].tag != CUSTOM_VALUE_PROTECTED))
    ensures TakeAll(s, key, [unknown], r) == Ok(r.Close())
    ensures var (x, y) := (TakeAll(s, key, b, r.Close()), TakeAll(s, key, b, r));
      match (x, y)
      case (Ok(p), Ok(q)) => p.Close() == q.Close()
      case _ => x == y
  {
    CloseFirst(s, key, r, unknown.tag, unknown.value);
    hide Take;
    var one: seq<Item> := [unknown];
    assert one[1..] == [];
    if b != [] {
      CloseFirst(s, key, r, b[0].tag, b[0].value);
    }
  }

  lemma {:induction false} TagsTaken(s: Suite, key: Bytes, tags: seq<Bytes>, e: Entry, offset: nat)
    requires forall i :: 0 <= i < |tags| ==> s.utf8(tags[i])
    ensures TakeAll(s, key, TagItems(tags), Reading(e, None, offset))
         == Ok(Reading(e.(tags := e.tags + tags), None, offset))
    decreases |tags|
  {
    if tags == [] {
      assert e.tags + tags == e.tags;
    } else {
      assert TagItems(tags)[1..] == TagItems(tags[1..]);
      TagsTaken(s, key, tags[1..], e.(tags := e.tags + [tags[0]]), offset);
      assert e.tags + [tags[0]] + tags[1..] == e.tags + tags;
    }
  }

  lemma PairTaken(s: Suite, key: Bytes, f: CustomField, e: Entry, offset: nat)
    requires s.utf8(f.name) && (f.value.Open? ==> s.utf8(f.value.text))
    ensures TakeAll(s, key, PairItems(s, f, key, offset), Reading(e, None, offset)) ==
      Ok(Reading(e.(customFields := e.customFields + [ResealedField(s, f, key, offset)]), None, offset + SecretOf(f)))
  {
    hide Masked;
    var items, read := PairItems(s, f, key, offset), ResealedField(s, f, key, offset);
    var r0, r1 := Reading(e, None, offset), Reading(e, Some(f.name), offset);
    var r2 := Reading(e.(customFields := e.customFields + [read]), None, offset + SecretOf(f));
    assert Take(s, key, r0, items[0].tag, items[0].value) == Ok(r1);
    assert Take(s, key, r1, items[1].tag, items[1].value) == Ok(r2);
    assert items[1..][1..] == [] && items[1..][0] == items[1];
    assert TakeAll(s, key, items, r0) == TakeAll(s, key, items[1..], r1) == TakeAll(s, key, [], r2);
  }

  lemma {:induction false} CustomTaken(s: Suite, key: Bytes, fields: seq<CustomField>, e: Entry, offset: nat)
    requires TypedFields(s, fields)
    ensures TakeAll(s, key, CustomItems(s, fields, key, offset), Reading(e, None, offset)) ==
      Ok(Reading(e.(customFields := e.customFields + ResealedFields(s, fields, key, offset)), None,
                 offset + CustomSecretLen(fields)))
    decreases |fields|
  {
    hide Take, PairItems, ResealedField, SecretOf;
    if fields == [] {
      assert e.customFields + ResealedFields(s, fields, key, offset) == e.customFields;
    } else {
      var f, others := fields[0], fields[1..];
      var next, read := offset + SecretOf(f), ResealedField(s, f, key, offset);
      var e' := e.(customFields := e.customFields + [read]);
      PairTaken(s, key, f, e, offset);
      CustomTaken(s, key, others, e', next);
      TakeAllConcat(s, key, PairItems(s, f, key, offset), CustomItems(s, others, key, next), Reading(e, None, offset));
      assert e.customFields + [read] + ResealedFields(s, others, key, next)
          == e.customFields + ([read] + ResealedFields(s, others, key, next));
    }
  }

  lemma HeadTaken(s: Suite, key: Bytes, e: Entry, offset: nat)
    requires Typed(s, e)
    ensures TakeAll(s, key, HeadItems(s, e, key, offset), Reading(BLANK, None, offset)) ==
      Ok(Reading(BLANK.(id := e.id, title := e.title, username := e.username, url := e.url, notes := e.notes,
                        password := Reseal(s, e.password, key, offset)), None, offset + e.password.Len()))
  {
    hide Masked;
    var items := HeadItems(s, e, key, offset);
    var r0 := Reading(BLANK, None, offset);
    var r1 := r0.With(BLANK.(id := e.id));
    var r2 := r1.With(r1.entry.(title := e.title));
    var r3 := r2.With(r2.entry.(username := e.username));
    var r4 := Reading(r3.entry.(password := Reseal(s, e.password, key, offset)), None, offset + e.password.Len());
    var r5 := r4.With(r4.entry.(url := e.url));
    var r6 := r5.With(r5.entry.(notes := e.notes));
    assert Take(s, key, r0, items[0].tag, items[0].value) == Ok(r1);
    assert Take(s, key, r1, items[1].tag, items[1].value) == Ok(r2);
    assert Take(s, key, r2, items[2].tag, items[2].value) == Ok(r3);
    assert Take(s, key, r3, items[3].tag, items[3].value) == Ok(r4);
    assert Take(s, key, r4, items[4].tag, items[4].value) == Ok(r5);
    assert Take(s, key, r5, items[5].tag, items[5].value) == Ok(r6);
    hide Take;
    assert items[1..][1..] == items[2..] && items[2..][1..] == items[3..] && items[3..][1..] == items[4..];
    assert items[4..][1..] == items[5..] && items[5..][1..] == items[6..] == [];
    assert TakeAll(s, key, items, r0) == TakeAll(s, key, items[1..], r1) == TakeAll(s, key, items[2..], r2);
    assert TakeAll(s, key, items[2..], r2) == TakeAll(s, key, items[3..], r3) == TakeAll(s, key, items[4..], r4);
    assert TakeAll(s, key, items[4..], r4) == TakeAll(s, key, items[5..], r5) == TakeAll(s, key, [], r6);
  }

  lemma OtpTaken(s: Suite, key: Bytes, otp: Option<Protected>, e: Entry, offset: nat)
    requires e.otpSecret.None?
    ensures TakeAll(s, key, OtpItems(s, otp, key, offset), Reading(e, None, offset)) ==
      match otp
      case None => Ok(Reading(e, None, offset))
      case Some(p) => Ok(Reading(e.(otpSecret := Some(Reseal(s, p, key, offset))), None, offset + p.Len()))
  {
    hide Masked;
    var items := OtpItems(s, otp, key, offset);
    if otp.Some? {
      assert items[1..] == [];
    }
  }

  lemma TimesTaken(s: Suite, key: Bytes, times: Entry, e: Entry, offset: nat)
    requires e.expiresAt.None?
    ensures TakeAll(s, key, TimeItems(times), Reading(e, None, offset)) ==
      Ok(Reading(e.(createdAt := times.createdAt, modifiedAt := times.modifiedAt, expiresAt := times.expiresAt), None,
          offset))
  {
    hide I64Bytes, DecodeI64;
    var items := TimeItems(times);
    I64RoundTrip(times.createdAt);
    I64RoundTrip(times.modifiedAt);
    var r0 := Reading(e, None, offset);
    var r1 := r0.With(e.(createdAt := times.createdAt));
    var r2 := r1.With(r1.entry.(modifiedAt := times.modifiedAt));
    assert Take(s, key, r0, items[0].tag, items[0].value) == Ok(r1);
    assert Take(s, key, r1, items[1].tag, items[1].value) == Ok(r2);
    assert items[1..][1..] == items[2..];
    assert TakeAll(s, key, items, r0) == TakeAll(s, key, items[1..], r1) == TakeAll(s, key, items[2..], r2);
    var r3 := r2.With(r2.entry.(expiresAt := times.expiresAt));
    if times.expiresAt.Some? {
      I64RoundTrip(times.expiresAt.value);
      assert Take(s, key, r2, items[2].tag, items[2].value) == Ok(r3);
      assert items[2..][1..] == [];
      assert TakeAll(s, key, items[2..], r2) == TakeAll(s, key, [], r3);
    } else {
      assert items[2..] == [] && r3 == r2;
    }
  }

  lemma EntryTaken(s: Suite, key: Bytes, e: Entry, offset: nat)
    requires Typed(s, e)
    ensures TakeAll(s, key, ItemsOf(s, e, key, offset), Reading(BLANK, None, offset)) ==
      Ok(Reading(Resealed(s, e, key, offset), None, offset + SecretLen(e)))
  {
    hide Take, TakeAll, HeadItems, TagItems, OtpItems, TimeItems, CustomItems, Masked, ResealedFields, CustomSecretLen;
    var otpAt := offset + e.password.Len();
    var customAt := otpAt + OtpLen(e);
    var head, tags, otp := HeadItems(s, e, key, offset), TagItems(e.tags), OtpItems(s, e.otpSecret, key, otpAt);
    var times, custom := TimeItems(e), CustomItems(s, e.customFields, key, customAt);
    var whole := Resealed(s, e, key, offset);
    HeadTaken(s, key, e, offset);
    var e1 := BLANK.(id := e.id, title := e.title, username := e.username, url := e.url, notes := e.notes,
                     password := whole.password);
    TagsTaken(s, key, e.tags, e1, otpAt);
    assert [] + e.tags == e.tags;
    var e2 := e1.(tags := e.tags);
    OtpTaken(s, key, e.otpSecret, e2, otpAt);
    var e3 := e2.(otpSecret := whole.otpSecret);
    TimesTaken(s, key, e, e3, customAt);
    var e4 := e3.(createdAt := e.createdAt, modifiedAt := e.modifiedAt, expiresAt := e.expiresAt);
    CustomTaken(s, key, e.customFields, e4, customAt);
    assert [] + whole.customFields == whole.customFields;
    assert e4.(customFields := whole.customFields) == whole;
    TakeAllConcat(s, key, head, tags + (otp + (times + custom)), Reading(BLANK, None, offset));
    TakeAllConcat(s, key, tags, otp + (times + custom), Reading(e1, None, otpAt));
    TakeAllConcat(s, key, otp, times + custom, Reading(e2, None, otpAt));
    TakeAllConcat(s, key, times, custom, Reading(e3, None, customAt));
  }

  // ---------------------------------------------------------------- exactly which entries read back

  /** No field is longer than `n`. */
  ghost predicate FieldsUpTo(e: Entry, n: nat) {
    && |e.title| <= n && |e.username| <= n && e.password.Len() <= n && |e.url| <= n && |e.notes| <= n
    && (forall i :: 0 <= i < |e.tags| ==> |e.tags[i]| <= n)
    && OtpLen(e) <= n && CustomUpTo(e.customFields, n)
  }

  ghost predicate CustomUpTo(fields: seq<CustomField>, n: nat) {
    forall i :: 0 <= i < |fields| ==> |fields[i].name| <= n && ValueLen(fields[i].value) <= n
  }

  function ValueLen(v: CustomValue): nat { if v.Open? then |v.text| else v.secret.Len() }

  lemma CustomUpToFirst(fields: seq<CustomField>, n: nat)
    requires fields != []
    ensures CustomUpTo(fields, n) <==>
      |fields[0].name| <= n && ValueLen(fields[0].value) <= n && CustomUpTo(fields[1..], n)
  {
    assert forall i :: 0 < i < |fields| ==> fields[i] == fields[1..][i - 1];
  }

  lemma {:induction false} CustomUpToExactly(s: Suite, fields: seq<CustomField>, key: Bytes, offset: nat, n: nat)
    ensures WithinLimit(CustomItems(s, fields, key, offset), n) <==> CustomUpTo(fields, n)
    decreases |fields|
  {
    hide Masked;
    if fields != [] {
      var f := fields[0];
      var pair, rest := PairItems(s, f, key, offset), CustomItems(s, fields[1..], key, offset + SecretOf(f));
      CustomUpToExactly(s, fields[1..], key, offset + SecretOf(f), n);
      if f.value.Secret? {
        ExposedLen(s, f.value.secret);
      }
      WithinLimitConcat(pair, rest, n);
      assert WithinLimit(pair, n) <==> |pair[0].value| <= n && |pair[1].value| <= n;
      CustomUpToFirst(fields, n);
    }
  }

  /** The limit on records is a limit on fields. */
  lemma FieldsUpToExactly(s: Suite, e: Entry, key: Bytes, offset: nat, n: nat)
    requires Typed(s, e) && n >= 16
    ensures WithinLimit(ItemsOf(s, e, key, offset), n) <==> FieldsUpTo(e, n)
  {
    hide Masked, I64Bytes, CustomItems, CustomUpTo;
    var otpAt := offset + e.password.Len();
    var customAt := otpAt + OtpLen(e);
    var head, tags, otp := HeadItems(s, e, key, offset), TagItems(e.tags), OtpItems(s, e.otpSecret, key, otpAt);
    var times, custom := TimeItems(e), CustomItems(s, e.customFields, key, customAt);
    WithinLimitConcat(head, tags + (otp + (times + custom)), n);
    WithinLimitConcat(tags, otp + (times + custom), n);
    WithinLimitConcat(otp, times + custom, n);
    WithinLimitConcat(times, custom, n);
    CustomUpToExactly(s, e.customFields, key, customAt, n);
    ExposedLen(s, e.password);
    assert WithinLimit(head, n) <==>
      |e.title| <= n && |e.username| <= n && e.password.Len() <= n && |e.url| <= n && |e.notes| <= n by {
      assert head[1].value == e.title && head[2].value == e.username && |head[3].value| == e.password.Len();
      assert head[4].value == e.url && head[5].value == e.notes;
    }
    assert WithinLimit(tags, n) <==> forall i :: 0 <= i < |e.tags| ==> |e.tags[i]| <= n by {
      assert forall i :: 0 <= i < |tags| ==> tags[i].value == e.tags[i];
    }
    if e.otpSecret.Some? {
      ExposedLen(s, e.otpSecret.value);
      assert |otp[0].value| == OtpLen(e);
    }
  }

  lemma ItemsFramable(s: Suite, e: Entry, key: Bytes, offset: nat)
    requires Typed(s, e) && FieldsUpTo(e, U32_MAX)
    ensures Framable(ItemsOf(s, e, key, offset))
  {
    hide Masked, I64Bytes, FieldsUpTo;
    FieldsUpToExactly(s, e, key, offset, U32_MAX);
    TagsNarrow(s, e.customFields, key, offset + e.password.Len() + OtpLen(e));
  }

  lemma {:induction false} TagsNarrow(s: Suite, fields: seq<CustomField>, key: Bytes, offset: nat)
    ensures forall i :: 0 <= i < |CustomItems(s, fields, key, offset)| ==>
      CustomItems(s, fields, key, offset)[i].tag <= 0xFFFF
    decreases |fields|
  {
    hide Masked;
    if fields != [] {
      TagsNarrow(s, fields[1..], key, offset + SecretOf(fields[0]));
    }
  }

  lemma CustomUpToAppend(fields: seq<CustomField>, f: CustomField, n: nat)
    requires CustomUpTo(fields, n) && |f.name| <= n && ValueLen(f.value) <= n
    ensures CustomUpTo(fields + [f], n)
  {
  }

  lemma CloseUpTo(r: Reading, n: nat)
    requires FieldsUpTo(r.entry, n) && |r.Named()| <= n
    ensures FieldsUpTo(r.Close().entry, n) && r.Close().name.None?
  {
    hide CustomUpTo;
    if r.name.Some? {
      CustomUpToAppend(r.entry.customFields, CustomField(r.name.value, Open([])), n);
    }
  }

  lemma TakeUpTo(s: Suite, key: Bytes, r: Reading, tag: nat, v: Bytes, n: nat)
    requires FieldsUpTo(r.entry, n) && |r.Named()| <= n && |v| <= n
    ensures Take(s, key, r, tag, v).Ok? ==>
      FieldsUpTo(Take(s, key, r, tag, v).value.entry, n) && |Take(s, key, r, tag, v).value.Named()| <= n
  {
    hide CustomUpTo, DecodeI64;
    CloseUpTo(r, n);
    hide Reading.Close;
    CustomUpToAppend(r.entry.customFields, CustomField(r.Named(), Open(v)), n);
    CustomUpToAppend(r.entry.customFields, CustomField(r.Named(), Secret(Encrypted(v, key, r.offset))), n);
  }

  /** Nothing the reader returns has a field longer than the limit, whatever it was given. */
  lemma {:induction false} ReadFieldsUpTo(s: Suite, key: Bytes, b: Bytes, r: Reading)
    requires FieldsUpTo(r.entry, MAX_FIELD_LEN) && |r.Named()| <= MAX_FIELD_LEN
    ensures ReadFields(s, key, b, r).Ok? ==> FieldsUpTo(ReadFields(s, key, b, r).value.entry, MAX_FIELD_LEN)
    decreases |b|
  {
    hide NextRecord, Take, Reading.Close, FieldsUpTo;
    match NextRecord(b, MAX_FIELD_LEN)
    case Err(_) =>
    case Ok(None) => CloseUpTo(r, MAX_FIELD_LEN);
    case Ok(Some((tag, v, rest))) =>
      var next := Take(s, key, r, tag, v);
      if next.Ok? {
        TakeUpTo(s, key, r, tag, v, MAX_FIELD_LEN);
        ReadFieldsUpTo(s, key, rest, next.value);
      }
  }

  lemma {:induction false} ShownFieldsUpTo(s: Suite, fields: seq<CustomField>, n: nat)
    ensures CustomUpTo(ShownFields(s, fields), n) <==> CustomUpTo(fields, n)
    decreases |fields|
  {
    if fields != [] {
      var shown := ShownFields(s, fields);
      ShownFieldsUpTo(s, fields[1..], n);
      CustomUpToFirst(fields, n);
      CustomUpToFirst(shown, n);
      assert shown[1..] == ShownFields(s, fields[1..]);
      if fields[0].value.Secret? {
        ExposedLen(s, fields[0].value.secret);
      }
    }
  }

  lemma ShownUpTo(s: Suite, e: Entry, n: nat)
    ensures FieldsUpTo(Shown(s, e), n) <==> FieldsUpTo(e, n)
  {
    ExposedLen(s, e.password);
    if e.otpSecret.Some? {
      ExposedLen(s, e.otpSecret.value);
    }
    ShownFieldsUpTo(s, e.customFields, n);
  }

  /**
   An entry that was written reads back, with its secrets, exactly when no field is longer than 1 MiB.
   With a longer one, short of 4 GiB, reading fails.
   */
  lemma EntryReadsBackExactly(s: Suite, e: Entry, key: Bytes, offset: nat)
    requires Typed(s, e)
    ensures var r := ParsedEntry(s, key, EntryBytes(s, e, key, offset), offset);
      && ((r.Ok? && Shown(s, r.value.0) == Shown(s, e)) <==> FieldsUpTo(e, MAX_FIELD_LEN))
      && (FieldsUpTo(e, MAX_FIELD_LEN) ==> r == Ok((Resealed(s, e, key, offset), offset + SecretLen(e))))
      && (FieldsUpTo(e, U32_MAX) && !FieldsUpTo(e, MAX_FIELD_LEN) ==> r == Err(BodyMalformed))
  {
    hide Take, TakeAll, ItemsOf, Records, ReadFields, Shown, Resealed, FieldsUpTo;
    var items, r := ItemsOf(s, e, key, offset), Reading(BLANK, None, offset);
    if FieldsUpTo(e, MAX_FIELD_LEN) {
      FieldsUpToWider(e);
    }
    FieldsUpToExactly(s, e, key, offset, MAX_FIELD_LEN);
    EntryTaken(s, key, e, offset);
    if FieldsUpTo(e, U32_MAX) {
      ItemsFramable(s, e, key, offset);
      ReadRecords(s, key, items, r);
      ResealedShown(s, e, key, offset);
    }
    var parsed := ParsedEntry(s, key, EntryBytes(s, e, key, offset), offset);
    BlankUpTo();
    ReadFieldsUpTo(s, key, Records(items), r);
    if parsed.Ok? && Shown(s, parsed.value.0) == Shown(s, e) {
      ShownUpTo(s, parsed.value.0, MAX_FIELD_LEN);
      ShownUpTo(s, e, MAX_FIELD_LEN);
    }
  }

  lemma FieldsUpToWider(e: Entry)
    requires FieldsUpTo(e, MAX_FIELD_LEN)
    ensures FieldsUpTo(e, U32_MAX)
  {
  }

  lemma BlankUpTo()
    ensures FieldsUpTo(BLANK, MAX_FIELD_LEN)
  {
  }

  // ---------------------------------------------------------------- length

  function TagsLen(tags: seq<Bytes>): nat { if tags == [] then 0 else RECORD_HEADER + |tags[0]| + TagsLen(tags[1..]) }

  function CustomLen(fields: seq<CustomField>): nat {
    if fields == [] then 0
    else 2 * RECORD_HEADER + |fields[0].name| + ValueLen(fields[0].value) + CustomLen(fields[1..])
  }

  /** Length of an entry's records, in terms of its fields alone. */
  function EntryLen(e: Entry): nat {
    6 * RECORD_HEADER + |e.id| + |e.title| + |e.username| + e.password.Len() + |e.url| + |e.notes| + TagsLen(e.tags)
    + (if e.otpSecret.Some? then RECORD_HEADER + OtpLen(e) else 0)
    + (if e.expiresAt.Some? then 3 else 2) * (RECORD_HEADER + 8) + CustomLen(e.customFields)
  }

  lemma {:induction false} TagsLength(tags: seq<Bytes>)
    ensures RecordsLen(TagItems(tags)) == TagsLen(tags)
  {
    if tags != [] {
      assert TagItems(tags)[1..] == TagItems(tags[1..]);
      TagsLength(tags[1..]);
    }
  }

  lemma PairLength(s: Suite, f: CustomField, key: Bytes, offset: nat)
    ensures RecordsLen(PairItems(s, f, key, offset)) == 2 * RECORD_HEADER + |f.name| + ValueLen(f.value)
  {
    hide Masked;
    var items := PairItems(s, f, key, offset);
    if f.value.Secret? {
      ExposedLen(s, f.value.secret);
    }
    assert items[1..][1..] == [] && items[1..][0] == items[1];
    assert RecordsLen(items[1..]) == RECORD_HEADER + ValueLen(f.value);
  }

  lemma {:induction false} CustomLength(s: Suite, fields: seq<CustomField>, key: Bytes, offset: nat)
    ensures RecordsLen(CustomItems(s, fields, key, offset)) == CustomLen(fields)
    decreases |fields|
  {
    hide PairItems, SecretOf;
    if fields != [] {
      var next := offset + SecretOf(fields[0]);
      PairLength(s, fields[0], key, offset);
      CustomLength(s, fields[1..], key, next);
      RecordsLenConcat(PairItems(s, fields[0], key, offset), CustomItems(s, fields[1..], key, next));
    }
  }

  lemma HeadLength(s: Suite, e: Entry, key: Bytes, offset: nat)
    ensures RecordsLen(HeadItems(s, e, key, offset)) ==
            6 * RECORD_HEADER + |e.id| + |e.title| + |e.username| + e.password.Len() + |e.url| + |e.notes|
  {
    hide Masked;
    var items := HeadItems(s, e, key, offset);
    ExposedLen(s, e.password);
    assert items[1..][1..] == items[2..] && items[2..][1..] == items[3..] && items[3..][1..] == items[4..];
    assert items[4..][1..] == items[5..] && items[5..][1..] == items[6..] == [];
    assert RecordsLen(items[5..]) == RECORD_HEADER + |e.notes|;
    assert RecordsLen(items[4..]) == 2 * RECORD_HEADER + |e.url| + |e.notes|;
    assert RecordsLen(items[3..]) == 3 * RECORD_HEADER + e.password.Len() + |e.url| + |e.notes|;
    assert RecordsLen(items[2..]) == RECORD_HEADER + |e.username| + RecordsLen(items[3..]);
    assert RecordsLen(items[1..]) == RECORD_HEADER + |e.title| + RecordsLen(items[2..]);
    assert RecordsLen(items) == RECORD_HEADER + |e.id| + RecordsLen(items[1..]);
  }

  lemma TimesLength(e: Entry)
    ensures RecordsLen(TimeItems(e)) == (if e.expiresAt.Some? then 3 else 2) * (RECORD_HEADER + 8)
  {
    hide I64Bytes;
    var items := TimeItems(e);
    assert items[1..][1..] == items[2..];
    assert RecordsLen(items[2..]) == if e.expiresAt.Some? then RECORD_HEADER + 8 else 0 by {
      if e.expiresAt.Some? {
        assert items[2..][1..] == [];
      } else {
        assert items[2..] == [];
      }
    }
    assert RecordsLen(items[1..]) == RECORD_HEADER + 8 + RecordsLen(items[2..]);
  }

  lemma EntryLength(s: Suite, e: Entry, key: Bytes, offset: nat)
    ensures |EntryBytes(s, e, key, offset)| == EntryLen(e)
  {
    hide HeadItems, TagItems, TimeItems, CustomItems, Records, Masked;
    var otpAt := offset + e.password.Len();
    var head, tags, otp := HeadItems(s, e, key, offset), TagItems(e.tags), OtpItems(s, e.otpSecret, key, otpAt);
    var times, custom := TimeItems(e), CustomItems(s, e.customFields, key, otpAt + OtpLen(e));
    RecordsLength(ItemsOf(s, e, key, offset));
    RecordsLenConcat(head, tags + (otp + (times + custom)));
    RecordsLenConcat(tags, otp + (times + custom));
    RecordsLenConcat(otp, times + custom);
    RecordsLenConcat(times, custom);
    HeadLength(s, e, key, offset);
    TagsLength(e.tags);
    TimesLength(e);
    CustomLength(s, e.customFields, key, otpAt + OtpLen(e));
    if e.otpSecret.Some? {
      ExposedLen(s, e.otpSecret.value);
      assert otp[1..] == [];
    }
  }
}
