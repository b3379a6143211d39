/**
 The decrypted payload of a vault: written as a list of records, read back from the chunks the stream layer
 hands out (format/payload.rs, format/tlv_incremental.rs).
 */
module Payloads {
  import opened Bytes
  import opened Primitives
  import opened Pad
  import opened Tlv
  import Entries
  import Frecency
  import Stream

  const END := 0x0000
  const INNER_ALGO := 0x0001
  const INNER_KEY := 0x0002
  const PAD_MODE := 0x0003
  const YUBIKEY_STRICT := 0x0004
  const VAULT_VERSION := 0x0010
  const ENTRY := 0x0020
  const USAGE := 0x0030

  const INNER_STREAM_CHACHA20: byte := 1
  const INNER_STREAM_KEY_LEN := 64
  const MAX_ENTRY_LEN := 0x100_0000

  datatype Payload = Payload(innerKey: Bytes, padMode: PadMode, version: u64, yubikeyStrict: bool,
                             entries: seq<Entries.Entry>, usage: seq<Frecency.Use>)

  // ---------------------------------------------------------------- writing

  function EntryItems(s: Suite, entries: seq<Entries.Entry>, key: Bytes, offset: nat): seq<Item> {
    if entries == [] then []
    else
      [Item(ENTRY, Entries.EntryBytes(s, entries[0], key, offset))]
      + EntryItems(s, entries[1..], key, offset + Entries.SecretLen(entries[0]))
  }

  function HeadItems(p: Payload): seq<Item> {
    [Item(INNER_ALGO, [INNER_STREAM_CHACHA20]), Item(INNER_KEY, p.innerKey), Item(PAD_MODE, [p.padMode.ToByte()])]
    + (if p.yubikeyStrict then [Item(YUBIKEY_STRICT, [1])] else [])
    + [Item(VAULT_VERSION, LE(p.version, 8))]
  }

  function UsageItems(p: Payload): seq<Item> {
    if p.usage == [] then [] else [Item(USAGE, Frecency.StoreBytes(p.usage))]
  }

  /** The records before the end marker. */
  function ItemsOf(s: Suite, p: Payload): seq<Item> {
    HeadItems(p) + (EntryItems(s, p.entries, p.innerKey, 0) + UsageItems(p))
  }

  function Serialized(s: Suite, p: Payload): Bytes { Records(ItemsOf(s, p)) + Record(END, []) }

  // ---------------------------------------------------------------- reading

  /** What has been read so far. */
  datatype Acc = Acc(innerKey: Option<Bytes>, padMode: PadMode, yubikeyStrict: bool, version: Option<u64>,
                     entries: seq<Entries.Entry>, usage: seq<Frecency.Use>, offset: nat, sawEnd: bool)

  const START := Acc(None, NoPadding, false, None, [], [], 0, false)

  function DecodeU64(v: Bytes): (r: Result<u64>)
    ensures r.Err? ==> r.error == BodyMalformed
  {
    if |v| != 8 then Err(BodyMalformed)
    else
      FromLERoundTrip(v);
      Pow256Widths();
      Ok(FromLE(v))
  }

  /** Take in one record; an entry needs the inner key to have come before it. */
  function Take(s: Suite, a: Acc, tag: nat, v: Bytes): (r: Result<Acc>)
    ensures r.Err? ==> r.error == BodyMalformed
    ensures r.Ok? ==> r.value.sawEnd == a.sawEnd
  {
    if tag == INNER_ALGO then (if v == [INNER_STREAM_CHACHA20] then Ok(a) else Err(BodyMalformed))
    else if tag == INNER_KEY then
      if |v| != INNER_STREAM_KEY_LEN then Err(BodyMalformed) else Ok(a.(innerKey := Some(v)))
    else if tag == PAD_MODE then
      if v == [] then Ok(a) else Ok(a.(padMode := PadMode.FromByte(v[0])))
    else if tag == YUBIKEY_STRICT then Ok(a.(yubikeyStrict := v != [] && v[0] != 0))
    else if tag == VAULT_VERSION then
      var n :- DecodeU64(v);
      Ok(a.(version := Some(n)))
    else if tag == ENTRY then
      if a.innerKey.None? then Err(BodyMalformed)
      else
        var (e, offset) :- Entries.ParsedEntry(s, a.innerKey.value, v, a.offset);
        Ok(a.(entries := a.entries + [e], offset := offset))
    else if tag == USAGE then
      var store :- Frecency.ParsedStore(v);
      Ok(a.(usage := store))
    else Ok(a)
  }

  /** The next record, once all of it has come; `None` asks for more bytes. */
  function TryNext(b: Bytes): (r: Result<Option<(nat, Bytes, Bytes)>>)
    ensures r.Ok? && r.value.Some? ==> |r.value.value.2| < |b|
    ensures r.Err? ==> r.error == BodyMalformed
  {
    if |b| < RECORD_HEADER then Ok(None) else NextRecord(b, MAX_ENTRY_LEN)
  }

  /** Take in all the records that have come, or those up to an end marker; what is left of the bytes. */
  function Scan(s: Suite, b: Bytes, a: Acc): (r: Result<(Acc, Bytes)>)
    ensures r.Err? ==> r.error == BodyMalformed
    decreases |b|
  {
    match TryNext(b)
    case Err(e) => Err(e)
    case Ok(None) => Ok((a, b))
    case Ok(Some((tag, v, rest))) =>
      if tag == END then Ok((a.(sawEnd := true), rest))
      else
        var next :- Take(s, a, tag, v);
        Scan(s, rest, next)
  }

  /** The end marker, the inner key and the version must all have come. */
  function Complete(a: Acc): (r: Result<Payload>)
    ensures r.Err? ==> r.error == BodyMalformed
  {
    if !a.sawEnd || a.innerKey.None? || a.version.None? then Err(BodyMalformed)
    else Ok(Payload(a.innerKey.value, a.padMode, a.version.value, a.yubikeyStrict, a.entries, a.usage))
  }

  /** Once the stream has ended, what is left is scanned once more. */
  function Finish(s: Suite, a: Acc, pending: Bytes): Result<Payload> {
    var (q, _) :- Scan(s, pending, a);
    Complete(q)
  }

  /** Decrypting chunk by chunk into the reader. */
  function FromStream(s: Suite, key: Bytes, ct: Bytes, counter: nat, pending: Bytes, a: Acc): Result<Payload>
    decreases |ct|
  {
    match Stream.NextChunk(s, key, ct, counter)
    case Err(e) => Err(e)
    case Ok(None) => Finish(s, a, pending)
    case Ok(Some((p, rest, next))) =>
      var (q, left) :- Scan(s, pending + p, a);
      FromStream(s, key, rest, next, left, q)
  }

  function FromCiphertext(s: Suite, key: Bytes, ct: Bytes): Result<Payload> { FromStream(s, key, ct, 0, [], START) }

  // ---------------------------------------------------------------- the methods

  /** Append the records of the entries, through one advancing stream. */
  method SerializeEntries(entries: seq<Entries.Entry>, inner: Entries.InnerStream, before: Bytes,
                          ghost items: seq<Item>) returns (out: Bytes)
    requires before == Records(items)
    modifies inner
    ensures out == Records(items + EntryItems(inner.suite, entries, inner.key, old(inner.offset)))
  {
    hide Record, Records, Entries.EntryBytes, Entries.SecretLen;
    out := before;
    ghost var written := items;
    ghost var all := items + EntryItems(inner.suite, entries, inner.key, inner.offset);
    assert entries[0..] == entries;
    for i := 0 to |entries|
      invariant out == Records(written) && written + EntryItems(inner.suite, entries[i..], inner.key, inner.offset)
        == all
    {
      assert entries[i..][0] == entries[i] && entries[i..][1..] == entries[i + 1..];
      var e := Entries.SerializeEntry(entries[i], inner);
      OneMore(out, written, Item(ENTRY, e));
      out := out + Record(ENTRY, e);
      written := written + [Item(ENTRY, e)];
    }
    assert entries[|entries|..] == [] && written == all;
  }

  method Serialize(s: Suite, p: Payload) returns (out: Bytes)
    ensures out == Serialized(s, p)
  {
    hide Record, Records, Entries.EntryBytes, Entries.SecretLen, Frecency.StoreBytes, LE;
    ghost var items: seq<Item> := [];
    NoRecords();
    out := [];
    var head := [Item(INNER_ALGO, [INNER_STREAM_CHACHA20]), Item(INNER_KEY, p.innerKey),
                 Item(PAD_MODE, [p.padMode.ToByte()])];
    if p.yubikeyStrict {
      head := head + [Item(YUBIKEY_STRICT, [1])];
    }
    head := head + [Item(VAULT_VERSION, LE(p.version, 8))];
    out := WriteItems(out, items, head);
    items := items + head;
    assert items == HeadItems(p);
    var inner := new Entries.InnerStream(s, p.innerKey);
    out := SerializeEntries(p.entries, inner, out, items);
    items := items + EntryItems(s, p.entries, p.innerKey, 0);
    hide EntryItems, HeadItems;
    if p.usage != [] {
      var usage := Frecency.SerializeStore(p.usage);
      OneMore(out, items, Item(USAGE, usage));
      out := out + Record(USAGE, usage);
      items := items + [Item(USAGE, usage)];
    }
    assert items == ItemsOf(s, p);
    out := out + Record(END, []);
  }

  /** The bytes that have come and are not yet part of a whole record. */
  class IncrementalTlv {
    var pending: Bytes

    constructor ()
      ensures pending == []
    {
      pending := [];
    }

    method Feed(chunk: Bytes)
      modifies this
      ensures pending == old(pending) + chunk
    {
      pending := pending + chunk;
    }

    method TryNextRecord() returns (r: Result<Option<(nat, Bytes)>>)
      modifies this
      ensures match TryNext(old(pending))
        case Err(e) => r == Err(e)
        case Ok(None) => r == Ok(None) && pending == old(pending)
        case Ok(Some((tag, v, rest))) => r == Ok(Some((tag, v))) && pending == rest
    {
      if |pending| < RECORD_HEADER {
        return Ok(None);
      }
      var tag, len := FromLE(pending[..2]), FromLE(pending[2..RECORD_HEADER]);
      if len > MAX_ENTRY_LEN {
        return Err(BodyMalformed);
      }
      var total := RECORD_HEADER + len;
      if |pending| < total {
        return Ok(None);
      }
      var value := pending[RECORD_HEADER..total];
      pending := pending[total..];
      r := Ok(Some((tag, value)));
    }
  }

  method IngestRecords(s: Suite, tlv: IncrementalTlv, a: Acc) returns (r: Result<Acc>)
    modifies tlv
    ensures match Scan(s, old(tlv.pending), a)
      case Err(e) => r == Err(e)
      case Ok((q, rest)) => r == Ok(q) && tlv.pending == rest
  {
    var acc := a;
    hide TryNext, Take;
    while true
      invariant Scan(s, old(tlv.pending), a) == Scan(s, tlv.pending, acc)
      decreases |tlv.pending|
    {
      var record := tlv.TryNextRecord();
      if record.Err? {
        return Err(record.error);
      }
      if record.value.None? {
        break;
      }
      var (tag, v) := record.value.value;
      if tag == END {
        return Ok(acc.(sawEnd := true));
      }
      var next := Take(s, acc, tag, v);
      if next.Err? {
        return Err(next.error);
      }
      acc := next.value;
    }
    r := Ok(acc);
  }

  method ParseFromStreamCiphertext(s: Suite, dataKey: Bytes, noncePrefix: Bytes, ct: Bytes) returns (r: Result<Payload>)
    ensures r == FromCiphertext(s, Stream.PayloadKey(s, dataKey, noncePrefix), ct)
  {
    var dec := new Stream.StreamDecryptor(s, dataKey, noncePrefix, ct);
    var tlv := new IncrementalTlv();
    var acc := START;
    hide Scan, Stream.NextChunk;
    while true
      invariant fresh(dec) && fresh(tlv) && dec.suite == s && dec.key == Stream.PayloadKey(s, dataKey, noncePrefix)
      invariant FromCiphertext(s, dec.key, ct) == FromStream(s, dec.key, dec.rest, dec.counter, tlv.pending, acc)
      decreases |dec.rest|
    {
      var chunk := dec.NextPlaintextChunk();
      match chunk
      case Err(e) => return Err(e);
      case Ok(None) => break;
      case Ok(Some(p)) =>
        tlv.Feed(p);
        var next := IngestRecords(s, tlv, acc);
        match next {
          case Err(e) => return Err(e);
          case Ok(q) => acc := q;
        }
    }
    var last := IngestRecords(s, tlv, acc);
    match last
    case Err(e) => return Err(e);
    case Ok(q) => r := Complete(q);
  }

  // ---------------------------------------------------------------- the cuts do not matter

  /** Feeding the pieces in turn, then finishing. */
  function FromPieces(s: Suite, pieces: seq<Bytes>, pending: Bytes, a: Acc): Result<Payload>
    decreases |pieces|
  {
    if pieces == [] then Finish(s, a, pending)
    else
      var (q, left) :- Scan(s, pending + pieces[0], a);
      FromPieces(s, pieces[1..], left, q)
  }

  /** Reading from the stream is feeding the pieces it decrypts to. */
  lemma {:induction false} StreamIsPieces(s: Suite, key: Bytes, ct: Bytes, counter: nat, pending: Bytes, a: Acc)
    returns (pieces: seq<Bytes>)
    requires Stream.DecryptFrom(s, key, ct, counter).Ok?
    ensures Concat(pieces) == Stream.DecryptFrom(s, key, ct, counter).value
    ensures FromStream(s, key, ct, counter, pending, a) == FromPieces(s, pieces, pending, a)
    decreases |ct|
  {
    hide Scan, Stream.NextChunk;
    match Stream.NextChunk(s, key, ct, counter)
    case Ok(None) => pieces := [];
    case Ok(Some((p, rest, next))) =>
      var more := [];
      match Scan(s, pending + p, a) {
        case Err(_) => more := StreamIsPieces(s, key, rest, next, pending, a);
        case Ok((q, left)) => more := StreamIsPieces(s, key, rest, next, left, q);
      }
      pieces := [p] + more;
      assert pieces[1..] == more;
  }

  /** A stream that does not decrypt gives no payload. */
  lemma {:induction false} StreamFails(s: Suite, key: Bytes, ct: Bytes, counter: nat, pending: Bytes, a: Acc)
    requires Stream.DecryptFrom(s, key, ct, counter).Err?
    ensures FromStream(s, key, ct, counter, pending, a).Err?
    decreases |ct|
  {
    hide Scan, Stream.NextChunk;
    match Stream.NextChunk(s, key, ct, counter)
    case Err(_) =>
    case Ok(Some((p, rest, next))) =>
      match Scan(s, pending + p, a) {
        case Err(_) =>
        case Ok((q, left)) => StreamFails(s, key, rest, next, left, q);
      }
  }

  predicate AllZero(b: Bytes) { forall i :: 0 <= i < |b| ==> b[i] == 0 }

  lemma TryMore(a: Bytes, b: Bytes)
    ensures TryNext(a).Err? ==> TryNext(a + b).Err?
    ensures TryNext(a).Ok? && TryNext(a).value.Some? ==>
      var (tag, v, rest) := TryNext(a).value.value;
      TryNext(a + b) == Ok(Some((tag, v, rest + b)))
  {
    if |a| >= RECORD_HEADER {
      var all := a + b;
      var len := FromLE(a[2..RECORD_HEADER]);
      assert all[2..RECORD_HEADER] == a[2..RECORD_HEADER] && all[..2] == a[..2];
      if |a| - RECORD_HEADER >= len {
        var end := RECORD_HEADER + len;
        assert all[RECORD_HEADER..end] == a[RECORD_HEADER..end] && all[end..] == a[end..] + b;
      }
    }
  }

  /** Scanning what has come and then the rest is scanning all of it. */
  lemma {:induction false} ScanInTwo(s: Suite, a: Bytes, b: Bytes, acc: Acc)
    requires !acc.sawEnd
    ensures Scan(s, a, acc).Err? ==> Scan(s, a + b, acc).Err?
    ensures Scan(s, a, acc).Ok? ==>
      var (q, rest) := Scan(s, a, acc).value;
      Scan(s, a + b, acc) == if q.sawEnd then Ok((q, rest + b)) else Scan(s, rest + b, q)
    decreases |a|
  {
    hide TryNext, Take;
    TryMore(a, b);
    match TryNext(a)
    case Err(_) =>
    case Ok(None) =>
    case Ok(Some((tag, v, rest))) =>
      if tag != END {
        var next := Take(s, acc, tag, v);
        if next.Ok? {
          ScanInTwo(s, rest, b, next.value);
        }
      }
  }

  /** Six zeros are an end marker: after the first one, zeros change nothing. */
  lemma ScanZeros(s: Suite, b: Bytes, acc: Acc)
    requires acc.sawEnd && AllZero(b)
    ensures Scan(s, b, acc).Ok? && Scan(s, b, acc).value.0 == acc && AllZero(Scan(s, b, acc).value.1)
  {
    if |b| >= RECORD_HEADER {
      assert b[..2] == [0, 0] && b[2..RECORD_HEADER] == [0, 0, 0, 0];
      ZeroLE();
    }
  }

  lemma ZeroLE()
    ensures FromLE([0, 0]) == 0 && FromLE([0, 0, 0, 0]) == 0
  {
    var one: Bytes, two: Bytes, three: Bytes, four: Bytes := [0], [0, 0], [0, 0, 0], [0, 0, 0, 0];
    assert one[1..] == [] && two[1..] == one && three[1..] == two && four[1..] == three;
    assert FromLE(one) == 0;
  }

  lemma {:induction false} PiecesAfterEnd(s: Suite, pieces: seq<Bytes>, pending: Bytes, acc: Acc)
    requires acc.sawEnd && AllZero(pending) && AllZero(Concat(pieces))
    ensures FromPieces(s, pieces, pending, acc) == Complete(acc)
    decreases |pieces|
  {
    hide Scan;
    if pieces == [] {
      ScanZeros(s, pending, acc);
    } else {
      var more := Concat(pieces[1..]);
      assert forall i :: 0 <= i < |pieces[0]| ==> pieces[0][i] == Concat(pieces)[i];
      assert forall i :: 0 <= i < |more| ==> more[i] == Concat(pieces)[|pieces[0]| + i];
      ScanZeros(s, pending + pieces[0], acc);
      PiecesAfterEnd(s, pieces[1..], Scan(s, pending + pieces[0], acc).value.1, acc);
    }
  }

  /** Reading all of the plaintext at once. */
  function Whole(s: Suite, b: Bytes, a: Acc): Result<Payload> {
    var (q, _) :- Scan(s, b, a);
    Complete(q)
  }

  /** Nothing but zeros follows the first end marker, if there is one. */
  ghost predicate CleanEnd(s: Suite, b: Bytes, a: Acc) {
    Scan(s, b, a).Ok? && Scan(s, b, a).value.0.sawEnd ==> AllZero(Scan(s, b, a).value.1)
  }

  lemma {:induction false} PiecesAreWhole(s: Suite, pieces: seq<Bytes>, pending: Bytes, a: Acc)
    requires !a.sawEnd && CleanEnd(s, pending + Concat(pieces), a)
    ensures FromPieces(s, pieces, pending, a) == Whole(s, pending + Concat(pieces), a)
    decreases |pieces|
  {
    hide Scan;
    if pieces == [] {
      assert pending + Concat(pieces) == pending;
    } else {
      var more := Concat(pieces[1..]);
      ScanInTwo(s, pending + pieces[0], more, a);
      Assoc(pending, pieces[0], more);
      match Scan(s, pending + pieces[0], a) {
        case Err(_) =>
        case Ok((q, left)) =>
          if q.sawEnd {
            assert forall i :: 0 <= i < |left| ==> left[i] == (left + more)[i];
            assert forall i :: 0 <= i < |more| ==> more[i] == (left + more)[|left| + i];
            PiecesAfterEnd(s, pieces[1..], left, q);
          } else {
            PiecesAreWhole(s, pieces[1..], left, q);
          }
      }
    }
  }

  /**
   For every byte string with nothing but zeros after its end marker and every way of cutting it, the payload
   read piece by piece is the one read from the whole: unlike the archive parser, this one waits for a record
   header that has not all come.
   */
  lemma CutsDoNotMatter(s: Suite, pieces: seq<Bytes>)
    requires CleanEnd(s, Concat(pieces), START)
    ensures FromPieces(s, pieces, [], START) == Whole(s, Concat(pieces), START)
  {
    assert [] + Concat(pieces) == Concat(pieces);
    PiecesAreWhole(s, pieces, [], START);
  }

  /** So opening reads, from whatever decrypts to a plaintext, the payload of that plaintext. */
  lemma CiphertextIsWhole(s: Suite, key: Bytes, ct: Bytes)
    ensures Stream.Decrypted(s, key, ct).Err? ==> FromCiphertext(s, key, ct).Err?
    ensures Stream.Decrypted(s, key, ct).Ok? && CleanEnd(s, Stream.Decrypted(s, key, ct).value, START) ==>
      FromCiphertext(s, key, ct) == Whole(s, Stream.Decrypted(s, key, ct).value, START)
  {
    hide Scan, Stream.DecryptFrom, CleanEnd;
    if Stream.Decrypted(s, key, ct).Err? {
      StreamFails(s, key, ct, 0, [], START);
    } else {
      var pieces := StreamIsPieces(s, key, ct, 0, [], START);
      if CleanEnd(s, Concat(pieces), START) {
        CutsDoNotMatter(s, pieces);
      }
    }
  }

  // ---------------------------------------------------------------- exactly which payloads read back

  function TakeAll(s: Suite, items: seq<Item>, a: Acc): (r: Result<Acc>)
    ensures r.Err? ==> r.error == BodyMalformed
    decreases |items|
  {
    if items == [] then Ok(a)
    else
      var next :- Take(s, a, items[0].tag, items[0].value);
      TakeAll(s, items[1..], next)
  }

  lemma {:induction false} TakeAllConcat(s: Suite, x: seq<Item>, y: seq<Item>, a: Acc)
    ensures TakeAll(s, x + y, a) ==
      match TakeAll(s, x, a) case Err(e) => Err(e) case Ok(q) => TakeAll(s, y, q)
    decreases |x|
  {
    hide Take;
    if x == [] {
      assert x + y == y;
    } else {
      assert (x + y)[1..] == x[1..] + y;
      var next := Take(s, a, x[0].tag, x[0].value);
      if next.Ok? {
        TakeAllConcat(s, x[1..], y, next.value);
      }
    }
  }

  ghost predicate NoEnd(items: seq<Item>) { forall i :: 0 <= i < |items| ==> items[i].tag != END }

  lemma {:induction false} ScanRecords(s: Suite, items: seq<Item>, rest: Bytes, a: Acc)
    requires Framable(items) && NoEnd(items)
    ensures Scan(s, Records(items) + rest, a) ==
      if !WithinLimit(items, MAX_ENTRY_LEN) then Err(BodyMalformed)
      else match TakeAll(s, items, a) case Err(e) => Err(e) case Ok(q) => Scan(s, rest, q)
    decreases |items|
  {
    hide Take, Record, NextRecord;
    if items == [] {
      NoRecords();
      assert [] + rest == rest;
    } else {
      var first, more := Record(items[0].tag, items[0].value), Records(items[1..]);
      Assoc(first, more, rest);
      RecordLength(items[0].tag, items[0].value);
      NextOwnRecord(items[0].tag, items[0].value, more + rest, MAX_ENTRY_LEN);
      WithinLimitFirst(items, MAX_ENTRY_LEN);
      var next := Take(s, a, items[0].tag, items[0].value);
      if next.Ok? {
        ScanRecords(s, items[1..], rest, next.value);
      }
    }
  }

  /** A record with a tag the reader does not know changes nothing, wherever it stands in a payload. */
  lemma UnknownRecordIgnored(s: Suite, x: seq<Item>, unknown: Item, y: seq<Item>, zeros: Bytes)
    requires Framable(x + [unknown] + y) && NoEnd(x + [unknown] + y) && |unknown.value| <= 16 * 1024 * 1024
    requires unknown.tag !in {0x0001, 0x0002, 0x0003, 0x0004, 0x0010, 0x0020, 0x0030}
    ensures Whole(s, Records(x + [unknown] + y) + (Record(0, []) + zeros), START)
         == Whole(s, Records(x + y) + (Record(0, []) + zeros), START)
  {
    var rest := Record(0, []) + zeros;
    Entries.FramableParts(x, unknown, y);
    NoEndParts(x, unknown, y);
    ScanRecords(s, x + [unknown] + y, rest, START);
    ScanRecords(s, x + y, rest, START);
    WithinLimitConcat(x + [unknown], y, MAX_ENTRY_LEN);
    WithinLimitConcat(x, [unknown], MAX_ENTRY_LEN);
    WithinLimitConcat(x, y, MAX_ENTRY_LEN);
    assert WithinLimit([unknown], MAX_ENTRY_LEN);
    hide Scan, Records, Record, Framable, WithinLimit, NoEnd, Take;
    TakeAllConcat(s, x + [unknown], y, START);
    TakeAllConcat(s, x, [unknown], START);
    TakeAllConcat(s, x, y, START);
    if TakeAll(s, x, START).Ok? {
      UnknownTaken(s, TakeAll(s, x, START).value, unknown);
    }
    hide TakeAll;
  }

  /** Without an inner key, a version or an end marker there is no payload. */
  lemma MissingRejected(s: Suite, items: seq<Item>, rest: Bytes)
    requires Framable(items) && NoEnd(items)
    requires rest == [] || exists zeros :: rest == Record(0, []) + zeros
    requires rest == [] || (forall x <- items :: x.tag != 0x0002) || (forall x <- items :: x.tag != 0x0010)
    ensures Whole(s, Records(items) + rest, START) == Err(BodyMalformed)
  {
    ScanRecords(s, items, rest, START);
    var taken := TakeAll(s, items, START);
    if taken.Ok? {
      NeverTaken(s, items, START);
      hide TakeAll, Take, Records, Framable, WithinLimit;
      if rest != [] {
        var zeros :| rest == Record(0, []) + zeros;
        NextOwnRecord(0, [], zeros, MAX_ENTRY_LEN);
      }
    }
  }

  lemma {:induction false} NeverTaken(s: Suite, items: seq<Item>, a: Acc)
    requires TakeAll(s, items, a).Ok? && !a.sawEnd
    ensures !TakeAll(s, items, a).value.sawEnd
    ensures a.innerKey.None? && (forall x <- items :: x.tag != 0x0002) ==> TakeAll(s, items, a).value.innerKey.None?
    ensures a.version.None? && (forall x <- items :: x.tag != 0x0010) ==> TakeAll(s, items, a).value.version.None?
    decreases |items|
  {
    if items != [] {
      assert items[0] in items && forall x <- items[1..] :: x in items;
      NeverTaken(s, items[1..], Take(s, a, items[0].tag, items[0].value).value);
    }
  }

  lemma NoEndParts(x: seq<Item>, unknown: Item, y: seq<Item>)
    requires NoEnd(x + [unknown] + y)
    ensures NoEnd(x + y)
  {
    var all := x + [unknown] + y;
    forall i | 0 <= i < |x + y| ensures (x + y)[i].tag != END {
      assert (x + y)[i] == all[if i < |x| then i else i + 1];
    }
  }

  lemma UnknownTaken(s: Suite, a: Acc, unknown: Item)
    requires unknown.tag !in {0x0001, 0x0002, 0x0003, 0x0004, 0x0010, 0x0020, 0x0030}
    ensures TakeAll(s, [unknown], a) == Ok(a)
  {
    var one: seq<Item> := [unknown];
    assert one[1..] == [];
    assert Take(s, a, unknown.tag, unknown.value) == Ok(a);
    hide Take;
  }

  lemma EndScanned(s: Suite, rest: Bytes, a: Acc)
    ensures Scan(s, Record(END, []) + rest, a) == Ok((a.(sawEnd := true), rest))
  {
    hide Record, NextRecord;
    RecordLength(END, []);
    NextOwnRecord(END, [], rest, MAX_ENTRY_LEN);
  }

  /** The values have the widths and encodings their Rust types give them. */
  ghost predicate Typed(s: Suite, p: Payload) {
    && |p.innerKey| == INNER_STREAM_KEY_LEN
    && (forall i :: 0 <= i < |p.entries| ==> Entries.Typed(s, p.entries[i]))
    && Frecency.Sorted(p.usage)
  }

  /** What the reader's limits allow: no field over 1 MiB, no entry and no usage store over 16 MiB. */
  ghost predicate Fits(p: Payload) {
    EntriesFit(p.entries, Entries.MAX_FIELD_LEN, MAX_ENTRY_LEN) && Frecency.USE_LEN * |p.usage| <= MAX_ENTRY_LEN
  }

  ghost predicate EntriesFit(entries: seq<Entries.Entry>, field: nat, record: nat) {
    forall i :: 0 <= i < |entries| ==> Entries.FieldsUpTo(entries[i], field) && Entries.EntryLen(entries[i]) <= record
  }

  const MEBIBYTE := 1024 * 1024

  /** An entry's fields within the reader's limit. */
  ghost predicate ShortFields(e: Entries.Entry) {
    && |e.title| <= MEBIBYTE && |e.username| <= MEBIBYTE && e.password.Len() <= MEBIBYTE
    && |e.url| <= MEBIBYTE && |e.notes| <= MEBIBYTE
    && (forall t <- e.tags :: |t| <= MEBIBYTE)
    && (e.otpSecret.Some? ==> e.otpSecret.value.Len() <= MEBIBYTE)
    && forall f <- e.customFields :: |f.name| <= MEBIBYTE &&
         match f.value
         case Open(text) => |text| <= MEBIBYTE
         case Secret(secret) => secret.Len() <= MEBIBYTE
  }

  lemma ShortFieldsExactly(e: Entries.Entry)
    ensures Entries.FieldsUpTo(e, Entries.MAX_FIELD_LEN) <==> ShortFields(e)
  {
    hide Entries.Protected.Len;
    assert (forall t <- e.tags :: |t| <= MEBIBYTE) <==> forall i :: 0 <= i < |e.tags| ==> |e.tags[i]| <= MEBIBYTE;
    forall i | 0 <= i < |e.customFields| ensures e.customFields[i] in e.customFields {
    }
  }

  /** The limits in numbers, and by what is written: no field over 1 MiB, no entry and no usage store over 16 MiB. */
  lemma FitsExactly(s: Suite, p: Payload, key: Bytes, offset: nat)
    requires Frecency.Sorted(p.usage)
    ensures Fits(p) <==>
      && |Frecency.StoreBytes(p.usage)| <= 16 * MEBIBYTE
      && forall e <- p.entries :: ShortFields(e) && |Entries.EntryBytes(s, e, key, offset)| <= 16 * MEBIBYTE
  {
    Frecency.StoreLength(p.usage);
    forall e <- p.entries
      ensures Entries.FieldsUpTo(e, Entries.MAX_FIELD_LEN) <==> ShortFields(e)
      ensures |Entries.EntryBytes(s, e, key, offset)| == Entries.EntryLen(e)
    {
      ShortFieldsExactly(e);
      Entries.EntryLength(s, e, key, offset);
    }
    hide Entries.EntryBytes, Entries.EntryLen, ShortFields, Entries.FieldsUpTo;
  }

  function SecretsBefore(entries: seq<Entries.Entry>, i: nat): nat
    requires i <= |entries|
  {
    if i == 0 then 0 else SecretsBefore(entries, i - 1) + Entries.SecretLen(entries[i - 1])
  }

  /** Entry `i` takes up the key stream where the secrets of those before it end, so no stretch of it is used twice. */
  lemma {:induction false} EntriesApart(s: Suite, entries: seq<Entries.Entry>, key: Bytes, i: nat)
    requires i <= |entries|
    ensures EntryItems(s, entries, key, 0)
         == EntryItems(s, entries[..i], key, 0) + EntryItems(s, entries[i..], key, SecretsBefore(entries, i))
    ensures i < |entries| ==>
      EntryItems(s, entries[i..], key, SecretsBefore(entries, i))[0]
      == Item(0x0020, Entries.EntryBytes(s, entries[i], key, SecretsBefore(entries, i)))
    decreases i
  {
    hide Entries.EntryBytes, Entries.SecretLen;
    if i == 0 {
      assert entries[..0] == [] && entries[0..] == entries;
    } else {
      EntriesApart(s, entries, key, i - 1);
      assert entries[i - 1..][1..] == entries[i..];
      EntryItemsAppend(s, entries[..i - 1], entries[i - 1], key, 0);
      assert entries[..i] == entries[..i - 1] + [entries[i - 1]];
      EarlierSecrets(entries, i - 1);
    }
  }

  lemma {:induction false} EarlierSecrets(entries: seq<Entries.Entry>, i: nat)
    requires i <= |entries|
    ensures TotalSecret(entries[..i]) == SecretsBefore(entries, i)
    decreases i
  {
    if i > 0 {
      EarlierSecrets(entries, i - 1);
      assert entries[..i] == entries[..i - 1] + [entries[i - 1]];
      TotalSecretAppend(entries[..i - 1], entries[i - 1]);
    }
  }

  function TotalSecret(entries: seq<Entries.Entry>): nat {
    if entries == [] then 0 else Entries.SecretLen(entries[0]) + TotalSecret(entries[1..])
  }

  lemma {:induction false} TotalSecretAppend(entries: seq<Entries.Entry>, e: Entries.Entry)
    ensures TotalSecret(entries + [e]) == TotalSecret(entries) + Entries.SecretLen(e)
  {
    hide Entries.SecretLen;
    if entries == [] {
      assert [] + [e] == [e] && [e][1..] == [];
    } else {
      assert (entries + [e])[1..] == entries[1..] + [e];
      TotalSecretAppend(entries[1..], e);
    }
  }

  lemma {:induction false} EntryItemsAppend(s: Suite, entries: seq<Entries.Entry>, e: Entries.Entry, key: Bytes,
      offset: nat)
    ensures EntryItems(s, entries + [e], key, offset)
         == EntryItems(s, entries, key, offset)
            + [Item(0x0020, Entries.EntryBytes(s, e, key, offset + TotalSecret(entries)))]
    decreases |entries|
  {
    hide Entries.EntryBytes, Entries.SecretLen;
    if entries == [] {
      assert [] + [e] == [e] && [e][1..] == [];
    } else {
      assert (entries + [e])[1..] == entries[1..] + [e];
      EntryItemsAppend(s, entries[1..], e, key, offset + Entries.SecretLen(entries[0]));
    }
  }

  /** A payload begins with the stream's algorithm, its key and the padding mode, and names its version in eight
  bytes. */
  lemma HeadLayout(s: Suite, p: Payload)
    requires |p.innerKey| == INNER_STREAM_KEY_LEN
    ensures var b := Serialized(s, p); var at := if p.yubikeyStrict then 91 else 84;
      && |b| >= at + 14
      && b[..7] == [1, 0, 1, 0, 0, 0, 1] && b[7..13] == [2, 0, 64, 0, 0, 0] && b[13..77] == p.innerKey
      && b[77..84] == [3, 0, 1, 0, 0, 0, if p.padMode == Padme then 1 else 0]
      && (p.yubikeyStrict ==> b[84..91] == [4, 0, 1, 0, 0, 0, 1])
      && b[at..at + 6] == [16, 0, 8, 0, 0, 0] && b[at + 6..at + 14] == LE(p.version, 8)
  {
    var front := HeadFront(p);
    var more := SerializedFront(s, p);
    var strict: Bytes := if p.yubikeyStrict then [4, 0, 1, 0, 0, 0, 1] else [];
    hide Records, HeadItems, LE, Serialized;
    HeadBytes(p.innerKey, p.padMode.ToByte(), strict, LE(p.version, 8), front, more);
  }

  lemma SerializedFront(s: Suite, p: Payload) returns (more: Bytes)
    ensures Serialized(s, p) == Records(HeadItems(p)) + more
  {
    var rest := EntryItems(s, p.entries, p.innerKey, 0) + UsageItems(p);
    RecordsConcat(HeadItems(p), rest);
    hide Records, HeadItems;
    more := Records(rest) + Record(END, []);
    Assoc(Records(HeadItems(p)), Records(rest), Record(END, []));
  }

  lemma HeadFront(p: Payload) returns (front: Bytes)
    requires |p.innerKey| == INNER_STREAM_KEY_LEN
    ensures front == Records(HeadItems(p))
    ensures front == [1, 0, 1, 0, 0, 0] + [1] + ([2, 0, 64, 0, 0, 0] + p.innerKey)
      + ([3, 0, 1, 0, 0, 0] + [p.padMode.ToByte()])
      + (if p.yubikeyStrict then [4, 0, 1, 0, 0, 0, 1] else []) + ([16, 0, 8, 0, 0, 0] + LE(p.version, 8))
  {
    front := Records(HeadItems(p));
    HeadRecords(p);
    SmallRecord(INNER_ALGO, [INNER_STREAM_CHACHA20]);
    SmallRecord(INNER_KEY, p.innerKey);
    SmallRecord(PAD_MODE, [p.padMode.ToByte()]);
    SmallRecord(YUBIKEY_STRICT, [1]);
    SmallRecord(VAULT_VERSION, LE(p.version, 8));
    hide Records, Record, HeadItems, LE;
    assert [4, 0, 1, 0, 0, 0] + [1] == [4, 0, 1, 0, 0, 0, 1];
  }

  lemma SmallRecord(tag: nat, value: Bytes)
    requires tag < 256 && |value| < 256
    ensures Record(tag, value) == [tag, 0, |value|, 0, 0, 0] + value
  {
    assert LE(0, 1) == [0] && LE(0, 2) == [0] + LE(0, 1) && LE(0, 3) == [0] + LE(0, 2);
    assert LE(tag, 2) == [tag] + LE(0, 1) && LE(|value|, 4) == [|value|] + LE(0, 3);
  }

  lemma HeadRecords(p: Payload)
    ensures Records(HeadItems(p)) ==
      Record(INNER_ALGO, [INNER_STREAM_CHACHA20]) + Record(INNER_KEY, p.innerKey)
      + Record(PAD_MODE, [p.padMode.ToByte()]) + (if p.yubikeyStrict then Record(YUBIKEY_STRICT, [1]) else [])
      + Record(VAULT_VERSION, LE(p.version, 8))
  {
    hide Record;
    var algo, key, pad, strict, version := Item(INNER_ALGO, [INNER_STREAM_CHACHA20]), Item(INNER_KEY, p.innerKey),
      Item(PAD_MODE, [p.padMode.ToByte()]), Item(YUBIKEY_STRICT, [1]), Item(VAULT_VERSION, LE(p.version, 8));
    NoRecords();
    OneMore([], [], algo);
    OneMore(Records([algo]), [algo], key);
    OneMore(Records([algo, key]), [algo, key], pad);
    assert [] + [algo] == [algo] && [algo] + [key] == [algo, key] && [algo, key] + [pad] == [algo, key, pad];
    if p.yubikeyStrict {
      OneMore(Records([algo, key, pad]), [algo, key, pad], strict);
      OneMore(Records([algo, key, pad, strict]), [algo, key, pad, strict], version);
      assert [algo, key, pad] + [strict] == [algo, key, pad, strict];
      assert HeadItems(p) == [algo, key, pad, strict] + [version];
    } else {
      OneMore(Records([algo, key, pad]), [algo, key, pad], version);
      assert HeadItems(p) == [algo, key, pad] + [version];
    }
    hide Records;
    assert [] + Record(algo.tag, algo.value) == Record(algo.tag, algo.value);
  }

  lemma HeadBytes(innerKey: Bytes, mode: byte, strict: Bytes, version: Bytes, front: Bytes, more: Bytes)
    requires |innerKey| == 64 && |version| == 8 && |strict| <= 7
    requires front == [1, 0, 1, 0, 0,
      0] + [1] + ([2, 0, 64, 0, 0, 0] + innerKey) + ([3, 0, 1, 0, 0, 0] + [mode]) + strict
      + ([16, 0, 8, 0, 0, 0] + version)
    ensures var (b, at) := (front + more, 84 + |strict|);
      && |b| >= at + 14
      && b[..7] == [1, 0, 1, 0, 0, 0, 1] && b[7..13] == [2, 0, 64, 0, 0, 0] && b[13..77] == innerKey
      && b[77..84] == [3, 0, 1, 0, 0, 0, mode] && b[84..at] == strict
      && b[at..at + 6] == [16, 0, 8, 0, 0, 0] && b[at + 6..at + 14] == version
  {
  }

  /** Every record's length fits its 32-bit length field. */
  /** Every record's length fits its 32-bit length field. */
  ghost predicate Countable(p: Payload) {
    EntriesFit(p.entries, U32_MAX, U32_MAX) && Frecency.USE_LEN * |p.usage| <= U32_MAX
  }

  function ResealedEntries(s: Suite, entries: seq<Entries.Entry>, key: Bytes, offset: nat): seq<Entries.Entry> {
    if entries == [] then []
    else
      [Entries.Resealed(s, entries[0], key, offset)]
      + ResealedEntries(s, entries[1..], key, offset + Entries.SecretLen(entries[0]))
  }

  function SecretsLen(entries: seq<Entries.Entry>): nat {
    if entries == [] then 0 else Entries.SecretLen(entries[0]) + SecretsLen(entries[1..])
  }

  /** The payload as it is loaded again: everything the same, the secrets encrypted under its inner key. */
  function Resealed(s: Suite, p: Payload): Payload { p.(entries := ResealedEntries(s, p.entries, p.innerKey, 0)) }

  /** No holder of an entry sees a difference. */
  lemma {:induction false} ResealedEntriesShown(s: Suite, entries: seq<Entries.Entry>, key: Bytes, offset: nat)
    ensures |ResealedEntries(s, entries, key, offset)| == |entries|
    ensures forall i :: 0 <= i < |entries| ==>
      Entries.Shown(s, ResealedEntries(s, entries, key, offset)[i]) == Entries.Shown(s, entries[i])
    decreases |entries|
  {
    hide Entries.Shown, Entries.Resealed;
    if entries != [] {
      Entries.ResealedShown(s, entries[0], key, offset);
      ResealedEntriesShown(s, entries[1..], key, offset + Entries.SecretLen(entries[0]));
    }
  }

  lemma HeadTaken(s: Suite, p: Payload)
    requires |p.innerKey| == INNER_STREAM_KEY_LEN
    ensures TakeAll(s, HeadItems(p), START) ==
      Ok(START.(innerKey := Some(p.innerKey), padMode := p.padMode, yubikeyStrict := p.yubikeyStrict,
          version := Some(p.version)))
  {
    hide LE;
    var items := HeadItems(p);
    var a1 := START.(innerKey := Some(p.innerKey));
    var a2 := a1.(padMode := p.padMode);
    var a3 := a2.(yubikeyStrict := p.yubikeyStrict);
    Pow256Widths();
    LERoundTrip(p.version, 8);
    assert Take(s, START, items[0].tag, items[0].value) == Ok(START);
    assert Take(s, START, items[1].tag, items[1].value) == Ok(a1);
    assert Take(s, a1, items[2].tag, items[2].value) == Ok(a2);
    assert items[1..][1..] == items[2..] && items[2..][1..] == items[3..];
    assert TakeAll(s, items, START) == TakeAll(s, items[1..], START) == TakeAll(s, items[2..], a1)
      == TakeAll(s, items[3..], a2);
    if p.yubikeyStrict {
      assert items[3..][1..] == items[4..];
      assert TakeAll(s, items[3..], a2) == TakeAll(s, items[4..], a3);
    }
    var last := items[|items| - 1..];
    assert last == (if p.yubikeyStrict then items[4..] else items[3..]);
    assert last[1..] == [] && DecodeU64(LE(p.version, 8)) == Ok(p.version);
    assert TakeAll(s, last, a3) == TakeAll(s, [], a3.(version := Some(p.version)));
  }

  lemma {:induction false} EntriesTaken(s: Suite, entries: seq<Entries.Entry>, key: Bytes, a: Acc)
    requires a.innerKey == Some(key) && forall i :: 0 <= i < |entries| ==> Entries.Typed(s, entries[i])
    requires EntriesFit(entries, U32_MAX, U32_MAX)
    ensures TakeAll(s, EntryItems(s, entries, key, a.offset), a) ==
      if EntriesFit(entries, Entries.MAX_FIELD_LEN, U32_MAX)
      then Ok(a.(entries := a.entries + ResealedEntries(s, entries, key, a.offset),
          offset := a.offset + SecretsLen(entries)))
      else Err(BodyMalformed)
    decreases |entries|
  {
    hide Entries.FieldsUpTo, Entries.EntryLen, Entries.Typed, Entries.Shown, Entries.Resealed, Entries.EntryBytes,
      Entries.SecretLen, Entries.ParsedEntry;
    if entries == [] {
      assert a.entries + ResealedEntries(s, entries, key, a.offset) == a.entries;
    } else {
      var e, more := entries[0], entries[1..];
      var items := EntryItems(s, entries, key, a.offset);
      Entries.EntryReadsBackExactly(s, e, key, a.offset);
      EntriesFitFirst(entries, Entries.MAX_FIELD_LEN, U32_MAX);
      assert items[1..] == EntryItems(s, more, key, a.offset + Entries.SecretLen(e));
      if Entries.FieldsUpTo(e, Entries.MAX_FIELD_LEN) {
        var read := Entries.Resealed(s, e, key, a.offset);
        var next := a.(entries := a.entries + [read], offset := a.offset + Entries.SecretLen(e));
        EntriesTaken(s, more, key, next);
        assert a.entries + [read] + ResealedEntries(s, more, key, next.offset)
            == a.entries + ResealedEntries(s, entries, key, a.offset);
      }
    }
  }

  lemma EntriesFitFirst(entries: seq<Entries.Entry>, field: nat, record: nat)
    requires entries != []
    ensures EntriesFit(entries, field, record) <==>
      && Entries.FieldsUpTo(entries[0], field) && Entries.EntryLen(entries[0]) <= record
      && EntriesFit(entries[1..], field, record)
  {
    hide Entries.FieldsUpTo, Entries.EntryLen;
    assert forall i :: 0 < i < |entries| ==> entries[i] == entries[1..][i - 1];
  }

  /** Sixteen-bit tags, none of them the end marker's. */
  ghost predicate Narrow(items: seq<Item>) { forall i :: 0 <= i < |items| ==> 0 < items[i].tag <= 0xFFFF }

  lemma NarrowConcat(a: seq<Item>, b: seq<Item>)
    requires Narrow(a) && Narrow(b)
    ensures Narrow(a + b)
  {
  }

  /** The limit on records is a limit on entries. */
  lemma {:induction false} EntryItemsUpTo(s: Suite, entries: seq<Entries.Entry>, key: Bytes, offset: nat, n: nat)
    ensures WithinLimit(EntryItems(s, entries, key, offset), n) <==> forall i :: 0 <= i < |entries| ==>
      Entries.EntryLen(entries[i]) <= n
    ensures Narrow(EntryItems(s, entries, key, offset))
    decreases |entries|
  {
    hide Entries.EntryLen, Entries.EntryBytes, Entries.SecretLen;
    if entries != [] {
      var items := EntryItems(s, entries, key, offset);
      Entries.EntryLength(s, entries[0], key, offset);
      EntryItemsUpTo(s, entries[1..], key, offset + Entries.SecretLen(entries[0]), n);
      WithinLimitFirst(items, n);
      assert items[1..] == EntryItems(s, entries[1..], key, offset + Entries.SecretLen(entries[0]));
      assert forall i :: 0 < i < |entries| ==> entries[i] == entries[1..][i - 1];
      assert items == [items[0]] + items[1..];
      NarrowConcat([items[0]], items[1..]);
    }
  }

  /** The limit on records is a limit on entries and on the usage store. */
  lemma ItemsUpTo(s: Suite, p: Payload, n: nat)
    requires Typed(s, p) && n >= INNER_STREAM_KEY_LEN
    ensures WithinLimit(ItemsOf(s, p), n) <==>
      (forall i :: 0 <= i < |p.entries| ==> Entries.EntryLen(p.entries[i]) <= n) && Frecency.USE_LEN * |p.usage| <= n
    ensures Narrow(ItemsOf(s, p))
  {
    hide Entries.EntryLen, Entries.Typed, Frecency.Sorted, Frecency.StoreBytes, EntryItems, LE;
    var head, entries, usage := HeadItems(p), EntryItems(s, p.entries, p.innerKey, 0), UsageItems(p);
    EntryItemsUpTo(s, p.entries, p.innerKey, 0, n);
    WithinLimitConcat(head, entries + usage, n);
    WithinLimitConcat(entries, usage, n);
    assert WithinLimit(head, n) && Narrow(head) && Narrow(usage);
    NarrowConcat(entries, usage);
    NarrowConcat(head, entries + usage);
    Frecency.StoreLength(p.usage);
    if p.usage != [] {
      assert WithinLimit(usage, n) <==> |usage[0].value| <= n;
    }
  }

  lemma UsageTaken(s: Suite, p: Payload, a: Acc)
    requires Frecency.Sorted(p.usage) && a.usage == []
    ensures TakeAll(s, UsageItems(p), a) == Ok(a.(usage := p.usage))
  {
    hide Frecency.Sorted, Frecency.StoreBytes, Frecency.ParsedStore;
    Frecency.StoreRoundTrip(p.usage);
    if p.usage != [] {
      assert UsageItems(p)[1..] == [];
    }
  }

  lemma ItemsTaken(s: Suite, p: Payload)
    requires Typed(s, p) && Countable(p)
    ensures TakeAll(s, ItemsOf(s, p), START) ==
      if EntriesFit(p.entries, Entries.MAX_FIELD_LEN, U32_MAX)
      then Ok(Acc(Some(p.innerKey), p.padMode, p.yubikeyStrict, Some(p.version), Resealed(s, p).entries, p.usage,
                  SecretsLen(p.entries), false))
      else Err(BodyMalformed)
  {
    hide Take, TakeAll, HeadItems, EntryItems, UsageItems, ResealedEntries, SecretsLen, Entries.Typed, Frecency.Sorted,
      EntriesFit;
    var head, entries, usage := HeadItems(p), EntryItems(s, p.entries, p.innerKey, 0), UsageItems(p);
    var a1 := START.(innerKey := Some(p.innerKey), padMode := p.padMode, yubikeyStrict := p.yubikeyStrict,
        version := Some(p.version));
    HeadTaken(s, p);
    EntriesTaken(s, p.entries, p.innerKey, a1);
    TakeAllConcat(s, head, entries + usage, START);
    TakeAllConcat(s, entries, usage, a1);
    assert [] + ResealedEntries(s, p.entries, p.innerKey, 0) == ResealedEntries(s, p.entries, p.innerKey, 0);
    var a2 := a1.(entries := ResealedEntries(s, p.entries, p.innerKey, 0), offset := SecretsLen(p.entries));
    UsageTaken(s, p, a2);
  }

  /**
   A payload that was written, whatever zeros pad it, reads back exactly when no field is longer than 1 MiB
   and no entry or usage store longer than 16 MiB; with a longer one, reading fails.
   */
  lemma PayloadReadsBackExactly(s: Suite, p: Payload, zeros: Bytes)
    requires Typed(s, p) && Countable(p) && AllZero(zeros)
    ensures Whole(s, Serialized(s, p) + zeros, START) == if Fits(p) then Ok(Resealed(s, p)) else Err(BodyMalformed)
    ensures CleanEnd(s, Serialized(s, p) + zeros, START)
  {
    hide Scan, Take, TakeAll, ItemsOf, Records, Record, ResealedEntries, Entries.FieldsUpTo, Entries.EntryLen,
      Entries.Typed,
      Frecency.Sorted;
    var items := ItemsOf(s, p);
    ItemsUpTo(s, p, U32_MAX);
    ItemsUpTo(s, p, MAX_ENTRY_LEN);
    assert Framable(items) && NoEnd(items);
    Assoc(Records(items), Record(END, []), zeros);
    ScanRecords(s, items, Record(END, []) + zeros, START);
    ItemsTaken(s, p);
    var a := TakeAll(s, items, START);
    if a.Ok? {
      EndScanned(s, zeros, a.value);
    }
    assert Fits(p) <==> WithinLimit(items, MAX_ENTRY_LEN) && EntriesFit(p.entries, Entries.MAX_FIELD_LEN, U32_MAX);
  }
}
