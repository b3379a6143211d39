/** Records of `tag | length | value`, the framing of payloads and archives (format/tlv.rs, tlv_incremental.rs). */
module Tlv {
  import opened Bytes
  import opened Cursors

  const RECORD_HEADER := 6

  /** One record; the length field keeps only 32 bits of the length. */
  function Record(tag: nat, value: Bytes): Bytes {
    LE(tag, 2) + LE(|value|, 4) + value
  }

  /** The record at the front of `b`, or `None` when there is none or its value is not all there yet. */
  function NextRecord(b: Bytes, maxLen: nat): (r: Result<Option<(nat, Bytes, Bytes)>>)
    ensures r.Ok? && r.value.Some? ==> |r.value.value.2| < |b| && |r.value.value.1| <= maxLen
    ensures r.Err? ==> r.error == BodyMalformed
  {
    if b == [] then Ok(None)
    else if |b| < RECORD_HEADER then Err(BodyMalformed)
    else
      var len := FromLE(b[2..RECORD_HEADER]);
      if len > maxLen then Err(BodyMalformed)
      else if |b| - RECORD_HEADER < len then Ok(None)
      else Ok(Some((FromLE(b[..2]), b[RECORD_HEADER..RECORD_HEADER + len], b[RECORD_HEADER + len..])))
  }

  method ReadRecordAt(cur: Cursor, maxLen: nat) returns (r: Result<Option<(nat, Bytes)>>)
    requires cur.Valid()
    modifies cur
    ensures cur.Valid()
    ensures match NextRecord(old(cur.Rest()), maxLen)
      case Err(e) => r == Err(e)
      case Ok(None) => r == Ok(None)
      case Ok(Some((tag, value, rest))) => r == Ok(Some((tag, value))) && cur.Rest() == rest
  {
    ghost var b := cur.Rest();
    if cur.Remaining() == 0 {
      return Ok(None);
    }
    var tag := cur.ReadLE(2);
    if tag.Err? {
      return Err(BodyMalformed);
    }
    assert |b| >= RECORD_HEADER ==> b[2..][..4] == b[2..RECORD_HEADER];
    var len := cur.ReadU32LE();
    if len.Err? {
      return Err(BodyMalformed);
    }
    if len.value > maxLen {
      return Err(BodyMalformed);
    }
    assert b[2..][4..] == b[RECORD_HEADER..];
    if cur.Remaining() < len.value {
      return Ok(None);
    }
    assert b[RECORD_HEADER..][len.value..] == b[RECORD_HEADER + len.value..];
    assert b[RECORD_HEADER..][..len.value] == b[RECORD_HEADER..RECORD_HEADER + len.value];
    var value := cur.Take(len.value);
    if value.Err? {
      return Err(BodyMalformed);
    }
    r := Ok(Some((tag.value, value.value)));
  }

  lemma RecordLength(tag: nat, value: Bytes)
    ensures |Record(tag, value)| == RECORD_HEADER + |value|
  {
  }

  /** What was written is read back, unless it is longer than the reader allows. */
  lemma NextOwnRecord(tag: nat, value: Bytes, rest: Bytes, maxLen: nat)
    requires tag <= 0xFFFF && |value| <= U32_MAX
    ensures NextRecord(Record(tag, value) + rest, maxLen) ==
            if |value| <= maxLen then Ok(Some((tag, value, rest))) else Err(BodyMalformed)
  {
    var b := Record(tag, value) + rest;
    Pow256Widths();
    LERoundTrip(tag, 2);
    LERoundTrip(|value|, 4);
    assert b[..2] == LE(tag, 2) && b[2..RECORD_HEADER] == LE(|value|, 4);
    var end := RECORD_HEADER + |value|;
    assert b[RECORD_HEADER..end] == value && b[end..] == rest;
  }

  // ---------------------------------------------------------------- a list of records

  /** A tag and a value, as they are handed to the writer. */
  datatype Item = Item(tag: nat, value: Bytes)

  function Records(items: seq<Item>): Bytes {
    if items == [] then [] else Record(items[0].tag, items[0].value) + Records(items[1..])
  }

  lemma {:induction false} RecordsConcat(a: seq<Item>, b: seq<Item>)
    ensures Records(a + b) == Records(a) + Records(b)
  {
    hide Record;
    if a == [] {
      assert a + b == b;
    } else {
      assert (a + b)[1..] == a[1..] + b;
      RecordsConcat(a[1..], b);
      Assoc(Record(a[0].tag, a[0].value), Records(a[1..]), Records(b));
    }
  }

  /** Every tag is sixteen bits wide and every length fits the length field. */
  ghost predicate Framable(items: seq<Item>) {
    forall i :: 0 <= i < |items| ==> items[i].tag <= 0xFFFF && |items[i].value| <= U32_MAX
  }

  predicate WithinLimit(items: seq<Item>, maxLen: nat) {
    forall i :: 0 <= i < |items| ==> |items[i].value| <= maxLen
  }

  lemma WithinLimitFirst(items: seq<Item>, maxLen: nat)
    requires items != []
    ensures WithinLimit(items, maxLen) <==> |items[0].value| <= maxLen && WithinLimit(items[1..], maxLen)
  {
    assert forall i :: 0 < i < |items| ==> items[i] == items[1..][i - 1];
  }

  lemma NothingNext(maxLen: nat)
    ensures Records([]) == [] && NextRecord([], maxLen) == Ok(None)
  {
  }

  lemma OneMore(out: Bytes, items: seq<Item>, last: Item)
    requires out == Records(items)
    ensures out + Record(last.tag, last.value) == Records(items + [last])
  {
    hide Record;
    var one: seq<Item> := [last];
    RecordsConcat(items, one);
    assert one[1..] == [] && Records(one) == Record(last.tag, last.value) + [];
  }

  lemma NoRecords()
    ensures Records([]) == []
  {
  }

  /** Append the records of `more`. */
  method WriteItems(before: Bytes, ghost items: seq<Item>, more: seq<Item>) returns (out: Bytes)
    requires before == Records(items)
    ensures out == Records(items + more)
  {
    out := before;
    assert items + more[..0] == items;
    for i := 0 to |more|
      invariant out == Records(items + more[..i])
    {
      OneMore(out, items + more[..i], more[i]);
      assert items + more[..i] + [more[i]] == items + more[..i + 1];
      out := out + Record(more[i].tag, more[i].value);
    }
    assert more[..|more|] == more;
  }

  lemma WithinLimitConcat(a: seq<Item>, b: seq<Item>, n: nat)
    ensures WithinLimit(a + b, n) <==> WithinLimit(a, n) && WithinLimit(b, n)
  {
    assert forall i :: 0 <= i < |a| ==> (a + b)[i] == a[i];
    assert forall i :: 0 <= i < |b| ==> (a + b)[|a| + i] == b[i];
  }

  function RecordsLen(items: seq<Item>): nat {
    if items == [] then 0 else RECORD_HEADER + |items[0].value| + RecordsLen(items[1..])
  }

  lemma {:induction false} RecordsLength(items: seq<Item>)
    ensures |Records(items)| == RecordsLen(items)
  {
    hide Record;
    if items != [] {
      RecordLength(items[0].tag, items[0].value);
      RecordsLength(items[1..]);
    }
  }

  lemma {:induction false} RecordsLenConcat(a: seq<Item>, b: seq<Item>)
    ensures RecordsLen(a + b) == RecordsLen(a) + RecordsLen(b)
  {
    if a == [] {
      assert a + b == b;
    } else {
      assert (a + b)[1..] == a[1..] + b;
      RecordsLenConcat(a[1..], b);
    }
  }
}
