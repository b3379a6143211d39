/** Where the record headers of a written archive lie, and so which cuts fall inside one (file_archive.rs, tlv.rs). */
module Offsets {
  import opened Bytes
  import opened Primitives
  import opened Archive
  import opened Tlv
  import Stream

  /** Length of the record of a full part: 65542 bytes, six more than a chunk of the stream. */
  const FULL_PART := RECORD_HEADER + MAX_PART_LEN

  /** How many parts a body of `n` bytes is written in. */
  function PartCount(n: nat): nat { (n + (MAX_PART_LEN - 1)) / MAX_PART_LEN }

  function PartsLen(n: nat): nat { n + RECORD_HEADER * PartCount(n) }

  /** Length of the record that names a file. */
  function HdrLen(e: Entry): nat { RECORD_HEADER + 24 + |e.meta.path| }

  function EntryLen(e: Entry): nat { HdrLen(e) + PartsLen(|e.body|) }

  /** A record of the archive starts at offset `o`: a file header, one of its parts, or the end marker. */
  predicate HeaderOffset(entries: seq<Entry>, o: nat)
    decreases |entries|
  {
    if entries == [] then o == 0
    else if o < HdrLen(entries[0]) then o == 0
    else if o < EntryLen(entries[0]) then (o - HdrLen(entries[0])) % FULL_PART == 0
    else HeaderOffset(entries[1..], o - EntryLen(entries[0]))
  }

  /** The cut after `c` bytes falls inside the header of some record. */
  ghost predicate CutsAHeader(entries: seq<Entry>, c: nat) {
    exists o: nat :: HeaderOffset(entries, o) && o < c < o + RECORD_HEADER
  }

  // ---------------------------------------------------------------- one record

  lemma CutInRecord(tag: nat, value: Bytes, rest: Bytes, c: nat)
    requires tag <= 0xFFFF && |value| <= MAX_RECORD_LEN
    requires c >= RECORD_HEADER
    ensures var n := RECORD_HEADER + |value|;
      CutsHeader(Record(tag, value) + rest, c) <==> c >= n && tag != END && CutsHeader(rest, c - n)
  {
    ReadOwnRecord(tag, value, rest);
  }

  lemma CutInHeader(b: Bytes, c: nat)
    requires c < RECORD_HEADER
    ensures CutsHeader(b, c) <==> c > 0
  {
  }

  // ---------------------------------------------------------------- the parts of a body

  lemma PartCountUnfold(n: nat)
    requires n > 0
    ensures PartCount(n) == 1 + PartCount(n - Min(n, MAX_PART_LEN))
  {
    var m := MAX_PART_LEN;
    if n > m {
      DivMod(n - m + (m - 1), m);
      QuotientUnique(n + (m - 1), PartCount(n - m) + 1, (n - m + (m - 1)) % m, m);
    }
  }

  lemma PartsUnfold(body: Bytes)
    requires body != []
    ensures var take := Min(|body|, MAX_PART_LEN);
      && Parts(body) == Record(FILE_PART, body[..take]) + Parts(body[take..])
      && PartCount(|body|) == 1 + PartCount(|body| - take)
  {
    hide Record, PartCount;
    PartCountUnfold(|body|);
  }

  lemma {:induction false} PartsLength(body: Bytes)
    ensures |Parts(body)| == PartsLen(|body|)
    decreases |body|
  {
    hide Record;
    if body != [] {
      var take := Min(|body|, MAX_PART_LEN);
      PartsUnfold(body);
      RecordLength(FILE_PART, body[..take]);
      PartsLength(body[take..]);
    }
  }

  lemma NoParts(rest: Bytes)
    ensures Parts([]) + rest == rest
  {
  }

  /** A cut inside the parts of a body falls inside a header exactly when it is 1 to 5 bytes past a part's start. */
  lemma {:induction false} PartsCuts(body: Bytes, rest: Bytes, c: nat)
    ensures CutsHeader(Parts(body) + rest, c) <==>
      if c < PartsLen(|body|) then 0 < c % FULL_PART < RECORD_HEADER else CutsHeader(rest, c - PartsLen(|body|))
    decreases |body|
  {
    hide CutsHeader, Record, Parts;
    if body == [] {
      NoParts(rest);
    } else {
      var take := Min(|body|, MAX_PART_LEN);
      var first, more := body[..take], body[take..];
      PartsUnfold(body);
      Assoc(Record(FILE_PART, first), Parts(more), rest);
      if c < RECORD_HEADER {
        CutInHeader(Parts(body) + rest, c);
      } else {
        CutInRecord(FILE_PART, first, Parts(more) + rest, c);
        if c >= RECORD_HEADER + take {
          PartsCuts(more, rest, c - RECORD_HEADER - take);
          DivMod(c - RECORD_HEADER - take, FULL_PART);
          QuotientUnique(c - RECORD_HEADER - take + FULL_PART, (c - RECORD_HEADER - take) / FULL_PART + 1,
                         (c - RECORD_HEADER - take) % FULL_PART, FULL_PART);
        }
      }
    }
  }

  // ---------------------------------------------------------------- the whole archive

  lemma HdrLength(s: Suite, e: Entry)
    requires Storable(s, e.meta)
    ensures WriteFileHdr(e.meta).Ok? && EncodeHdr(e.meta).Ok?
    ensures WriteFileHdr(e.meta).value == Record(FILE_HDR, EncodeHdr(e.meta).value)
    ensures |EncodeHdr(e.meta).value| == |e.meta.path| + 24 <= MAX_RECORD_LEN
    ensures |WriteFileHdr(e.meta).value| == HdrLen(e)
  {
    DecodeEncodedHdr(s, e.meta);
    RecordLength(FILE_HDR, EncodeHdr(e.meta).value);
  }

  /** The archive of a list is its first file's record and parts, then the archive of the others. */
  lemma ArchiveUnfold(s: Suite, entries: seq<Entry>)
    requires StorableEntries(s, entries) && entries != []
    ensures StorableEntries(s, entries[1..]) && ArchiveBytes(entries[1..]).Ok? && ArchiveBytes(entries).Ok?
    ensures WriteFileHdr(entries[0].meta).Ok?
    ensures ArchiveBytes(entries).value ==
            WriteFileHdr(entries[0].meta).value + (Parts(entries[0].body) + ArchiveBytes(entries[1..]).value)
  {
    hide Record, Parts, WriteFileHdr, Storable;
    assert forall i :: 0 <= i < |entries| - 1 ==> entries[1..][i] == entries[i + 1];
    ParseWritten(s, entries[1..], []);
    ParseWritten(s, entries, []);
    var hdr, parts, rest := WriteFileHdr(entries[0].meta).value, Parts(entries[0].body),
        EntriesBytes(entries[1..]).value;
    Assoc(hdr + parts, rest, Record(END, []));
    Assoc(hdr, parts, rest + Record(END, []));
  }

  function ArchiveLen(entries: seq<Entry>): nat {
    if entries == [] then RECORD_HEADER else EntryLen(entries[0]) + ArchiveLen(entries[1..])
  }

  lemma {:induction false} ArchiveLength(s: Suite, entries: seq<Entry>)
    requires StorableEntries(s, entries)
    ensures ArchiveBytes(entries).Ok? && |ArchiveBytes(entries).value| == ArchiveLen(entries)
  {
    hide Record, Parts, WriteFileHdr, Storable;
    if entries == [] {
      RecordLength(END, []);
    } else {
      ArchiveUnfold(s, entries);
      HdrLength(s, entries[0]);
      PartsLength(entries[0].body);
      ArchiveLength(s, entries[1..]);
    }
  }

  /** Any offset of a header leaves room for it in the archive. */
  lemma {:induction false} HeaderFits(s: Suite, entries: seq<Entry>, o: nat)
    requires StorableEntries(s, entries) && ArchiveBytes(entries).Ok? && HeaderOffset(entries, o)
    ensures o + RECORD_HEADER <= |ArchiveBytes(entries).value|
    decreases |entries|
  {
    hide Record, Parts, WriteFileHdr, Storable;
    if entries == [] {
      RecordLength(END, []);
    } else {
      var e := entries[0];
      ArchiveUnfold(s, entries);
      HdrLength(s, e);
      PartsLength(e.body);
      if o >= EntryLen(e) {
        HeaderFits(s, entries[1..], o - EntryLen(e));
      } else if o >= HdrLen(e) {
        PartFits(|e.body|, o - HdrLen(e));
      }
    }
  }

  /** Parts start a full part apart, and each has room for its header. */
  lemma PartFits(n: nat, o: nat)
    requires o < PartsLen(n) && o % FULL_PART == 0
    ensures o / FULL_PART < PartCount(n) && o + RECORD_HEADER <= PartsLen(n)
  {
    var k, count := o / FULL_PART, PartCount(n);
    assert o == k * FULL_PART == k * MAX_PART_LEN + k * RECORD_HEADER;
    DivMod(n + (MAX_PART_LEN - 1), MAX_PART_LEN);
    assert n <= count * MAX_PART_LEN && count * MAX_PART_LEN < n + MAX_PART_LEN;
    assert k < count && (count - 1 - k) * MAX_PART_LEN >= 0;
  }

  lemma {:induction false} CutsClosedForm(s: Suite, entries: seq<Entry>, rest: Bytes, c: nat)
    requires StorableEntries(s, entries) && ArchiveBytes(entries).Ok?
    ensures CutsHeader(ArchiveBytes(entries).value + rest, c) <==> Straddles(entries, c)
    decreases |entries|
  {
    hide CutsHeader, Record, Parts, WriteFileHdr, Storable, PartsLen;
    if entries == [] {
      assert ArchiveBytes(entries).value == Record(END, []);
      if c < RECORD_HEADER {
        CutInHeader(Record(END, []) + rest, c);
      } else {
        CutInRecord(END, [], rest, c);
      }
    } else {
      var e := entries[0];
      ArchiveUnfold(s, entries);
      HdrLength(s, e);
      var hdr, parts, others := WriteFileHdr(e.meta).value, Parts(e.body), ArchiveBytes(entries[1..]).value;
      Assoc(hdr, parts + others, rest);
      Assoc(parts, others, rest);
      if c < RECORD_HEADER {
        CutInHeader(ArchiveBytes(entries).value + rest, c);
      } else {
        CutInRecord(FILE_HDR, EncodeHdr(e.meta).value, parts + (others + rest), c);
        if c >= HdrLen(e) {
          PartsCuts(e.body, others + rest, c - HdrLen(e));
          if c >= EntryLen(e) {
            CutsClosedForm(s, entries[1..], rest, c - EntryLen(e));
          }
        }
      }
    }
  }

  /** The same without naming the header that is cut. */
  predicate Straddles(entries: seq<Entry>, c: nat)
    decreases |entries|
  {
    if entries == [] then 0 < c < RECORD_HEADER
    else if c < HdrLen(entries[0]) then 0 < c < RECORD_HEADER
    else if c < EntryLen(entries[0]) then 0 < (c - HdrLen(entries[0])) % FULL_PART < RECORD_HEADER
    else Straddles(entries[1..], c - EntryLen(entries[0]))
  }

  /** The header that a cut falls inside. */
  lemma {:induction false} StraddledHeader(entries: seq<Entry>, c: nat) returns (o: nat)
    requires Straddles(entries, c)
    ensures HeaderOffset(entries, o) && o < c < o + RECORD_HEADER
    decreases |entries|
  {
    if entries == [] || c < HdrLen(entries[0]) {
      o := 0;
    } else if c < EntryLen(entries[0]) {
      var at := c - HdrLen(entries[0]);
      o := HdrLen(entries[0]) + at / FULL_PART * FULL_PART;
      DivMod(at, FULL_PART);
      QuotientUnique(at / FULL_PART * FULL_PART, at / FULL_PART, 0, FULL_PART);
    } else {
      var p := StraddledHeader(entries[1..], c - EntryLen(entries[0]));
      o := p + EntryLen(entries[0]);
    }
  }

  lemma {:induction false} InsideStraddles(entries: seq<Entry>, o: nat, c: nat)
    requires HeaderOffset(entries, o) && o < c < o + RECORD_HEADER
    ensures Straddles(entries, c)
    decreases |entries|
  {
    if entries != [] && o >= HdrLen(entries[0]) {
      var e := entries[0];
      if o < EntryLen(e) {
        PartFits(|e.body|, o - HdrLen(e));
        QuotientUnique(c - HdrLen(e), (o - HdrLen(e)) / FULL_PART, c - o, FULL_PART);
      } else {
        InsideStraddles(entries[1..], o - EntryLen(e), c - EntryLen(e));
      }
    }
  }

  /** A cut of a written archive, padded or not, is inside a header exactly when it is just past one of the offsets. */
  lemma CutsExactly(s: Suite, entries: seq<Entry>, rest: Bytes, c: nat)
    requires StorableEntries(s, entries) && ArchiveBytes(entries).Ok?
    ensures CutsHeader(ArchiveBytes(entries).value + rest, c) <==> CutsAHeader(entries, c)
  {
    hide HeaderOffset, Straddles, CutsHeader;
    CutsClosedForm(s, entries, rest, c);
    if Straddles(entries, c) {
      var o := StraddledHeader(entries, c);
    }
    if CutsAHeader(entries, c) {
      var o: nat :| HeaderOffset(entries, o) && o < c < o + RECORD_HEADER;
      InsideStraddles(entries, o, c);
    }
  }

  // ---------------------------------------------------------------- chunk boundaries

  /** The six bytes from `o` on lie within one chunk of the stream. */
  predicate WithinChunk(o: nat) { o % Stream.STREAM_CHUNK_SIZE <= Stream.STREAM_CHUNK_SIZE - RECORD_HEADER }

  /** Every record header lies within one chunk. */
  ghost predicate HeadersWithinChunks(entries: seq<Entry>) {
    forall o: nat :: HeaderOffset(entries, o) ==> WithinChunk(o)
  }

  /** The boundary after `o`, if the header at `o` is not within one chunk. */
  lemma CutAfter(o: nat)
    ensures var i := o / Stream.STREAM_CHUNK_SIZE + 1;
      o < i * Stream.STREAM_CHUNK_SIZE && (i * Stream.STREAM_CHUNK_SIZE < o + RECORD_HEADER <==> !WithinChunk(o))
  {
    DivMod(o, Stream.STREAM_CHUNK_SIZE);
  }

  /** A boundary inside the header at `o` is the one after `o`. */
  lemma CutIsAfter(o: nat, i: nat)
    requires o < i * Stream.STREAM_CHUNK_SIZE < o + RECORD_HEADER
    ensures !WithinChunk(o)
  {
    var m := Stream.STREAM_CHUNK_SIZE;
    QuotientUnique(o, i - 1, o - (i - 1) * m, m);
  }

  // ---------------------------------------------------------------- the drift of the parts

  /** The parts of entry `i` start a full part apart, from some offset on. */
  lemma {:induction false} PartOffsets(entries: seq<Entry>, i: nat) returns (base: nat)
    requires i < |entries|
    ensures forall k: nat {:trigger k * FULL_PART} ::
      k * MAX_PART_LEN < |entries[i].body| ==> HeaderOffset(entries, base + k * FULL_PART)
    decreases |entries|
  {
    var e := entries[0];
    if i == 0 {
      base := HdrLen(e);
      forall k: nat | k * MAX_PART_LEN < |e.body| ensures HeaderOffset(entries, base + k * FULL_PART) {
        PartStarts(|e.body|, k);
        QuotientUnique(k * FULL_PART, k, 0, FULL_PART);
      }
    } else {
      var p := PartOffsets(entries[1..], i - 1);
      base := p + EntryLen(e);
      assert entries[1..][i - 1] == entries[i];
      forall k: nat | k * MAX_PART_LEN < |entries[i].body| ensures HeaderOffset(entries, base + k * FULL_PART) {
        assert HeaderOffset(entries[1..], p + k * FULL_PART);
        assert base + k * FULL_PART - EntryLen(e) == p + k * FULL_PART;
      }
    }
  }

  lemma PartStarts(n: nat, k: nat)
    requires k * MAX_PART_LEN < n
    ensures k * FULL_PART < PartsLen(n)
  {
    DivMod(n + (MAX_PART_LEN - 1), MAX_PART_LEN);
    assert n <= PartCount(n) * MAX_PART_LEN;
    assert (PartCount(n) - k) * MAX_PART_LEN > 0;
  }

  /** Enough full parts for the drift to reach a boundary from any starting point. */
  const DRIFT_PARTS := 21844

  /**
   Each part starts six bytes later within its chunk than the one before. A header is six bytes long, so
   the drift can step over a boundary on at most one lap: by the second, some header straddles it.
   */
  lemma Drift(base: nat) returns (k: nat)
    ensures k <= DRIFT_PARTS && !WithinChunk(base + k * FULL_PART)
  {
    var m := Stream.STREAM_CHUNK_SIZE;
    var q, r := base / m, base % m;
    DivMod(base, m);
    if r % 6 == 4 {
      k := (65530 - r) / 6 + 1 + 10922;
      QuotientUnique(base + k * FULL_PART, q + k + 1, 65532, m);
    } else {
      k := (65535 - r) / 6;
      QuotientUnique(base + k * FULL_PART, q + k, r + 6 * k, m);
    }
  }

  /** Whatever else is in the archive, the headers of a file of more than 21844 full parts are not all within chunks. */
  lemma LongFileStraddles(entries: seq<Entry>, i: nat)
    requires i < |entries| && |entries[i].body| > DRIFT_PARTS * MAX_PART_LEN
    ensures !HeadersWithinChunks(entries)
  {
    var base := PartOffsets(entries, i);
    var k := Drift(base);
    assert k * MAX_PART_LEN <= DRIFT_PARTS * MAX_PART_LEN;
    assert HeaderOffset(entries, base + k * FULL_PART);
  }
}
