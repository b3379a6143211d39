/**
 The file archive inside a sealed container: records of `tag | length | value`, the parser that has all
 the bytes and the one that is fed a chunk at a time (format/file_archive.rs).
 */
module Archive {
  import opened Bytes
  import opened Primitives
  import opened Cursors
  import opened Tlv

  const MAX_PATH_LEN := 4096
  const MAX_PART_LEN := 65536
  const MAX_FILE_SIZE := 0x40_0000_0000
  const MAX_RECORD_LEN := MAX_PART_LEN + 128

  const FILE_HDR := 0x0100
  const FILE_PART := 0x0101
  const END := 0xFFFF

  const SLASH: byte := 47
  const BACKSLASH: byte := 92
  const DOT: byte := 46

  datatype FileMeta = FileMeta(path: Bytes, mode: u32, mtime: u64, size: u64)

  datatype Entry = Entry(meta: FileMeta, body: Bytes)

  // ---------------------------------------------------------------- records

  /** The next record of an archive. */
  function ReadRecord(b: Bytes): (r: Result<Option<(nat, Bytes, Bytes)>>)
    ensures r.Ok? && r.value.Some? ==> |r.value.value.2| < |b|
  {
    NextRecord(b, MAX_RECORD_LEN)
  }

  lemma ReadOwnRecord(tag: nat, value: Bytes, rest: Bytes)
    requires tag <= 0xFFFF && |value| <= MAX_RECORD_LEN
    ensures ReadRecord(Record(tag, value) + rest) == Ok(Some((tag, value, rest)))
  {
    NextOwnRecord(tag, value, rest, MAX_RECORD_LEN);
  }

  // ---------------------------------------------------------------- file headers

  /** The components of a path. */
  function Components(path: Bytes): (r: seq<Bytes>)
    ensures |r| >= 1
  {
    if path == [] then [[]]
    else
      var rest := Components(path[1..]);
      if path[0] == SLASH then [[]] + rest else [[path[0]] + rest[0]] + rest[1..]
  }

  predicate PathAllowed(path: Bytes) {
    && path != [] && path[0] != SLASH && path[0] != BACKSLASH
    && BACKSLASH !in path
    && forall c :: c in Components(path) ==> c != [] && c != [DOT, DOT] && c != [DOT]
  }

  // ---------------------------------------------------------------- what an allowed path resolves to

  /** One component: `.` and nothing stay where they are, `..` goes up, a name goes down. */
  function Stepped(dir: seq<Bytes>, c: Bytes): seq<Bytes> {
    if c == [] || c == [DOT] then dir
    else if c == [DOT, DOT] then if dir == [] then [] else dir[..|dir| - 1]
    else dir + [c]
  }

  function Walked(dir: seq<Bytes>, components: seq<Bytes>): seq<Bytes>
    decreases |components|
  {
    if components == [] then dir else Walked(Stepped(dir, components[0]), components[1..])
  }

  /** Where a path leads, taken from the directory `dir` as a file system takes it; `[]` is the root directory. */
  function Resolved(dir: seq<Bytes>, path: Bytes): seq<Bytes> {
    Walked(if path != [] && path[0] == SLASH then [] else dir, Components(path))
  }

  lemma {:induction false} WalksDown(dir: seq<Bytes>, components: seq<Bytes>)
    requires forall c <- components :: c != [] && c != [DOT] && c != [DOT, DOT]
    ensures Walked(dir, components) == dir + components
    decreases |components|
  {
    if components == [] {
      assert dir + components == dir;
    } else {
      assert components[0] in components && forall c <- components[1..] :: c in components;
      WalksDown(dir + [components[0]], components[1..]);
      assert dir + [components[0]] + components[1..] == dir + components;
    }
  }

  /** The components of a path, joined by slashes, are the path; none holds a slash. */
  lemma {:induction false} ComponentsExactly(path: Bytes)
    ensures forall c <- Components(path) :: SLASH !in c
    ensures SlashJoined(Components(path)) == path
  {
    if path != [] {
      ComponentsExactly(path[1..]);
      var rest := Components(path[1..]);
      if path[0] == SLASH {
        assert Components(path) == [[]] + rest && (Components(path))[1..] == rest;
      } else {
        assert Components(path) == [[path[0]] + rest[0]] + rest[1..];
        assert rest == [rest[0]] + rest[1..] && Components(path)[1..] == rest[1..];
      }
      assert path == [path[0]] + path[1..];
    }
  }

  function SlashJoined(components: seq<Bytes>): Bytes {
    if components == [] then []
    else if |components| == 1 then components[0]
    else components[0] + [SLASH] + SlashJoined(components[1..])
  }

  /** From whatever directory it is taken, an allowed path leads below it, by its own components. */
  lemma AllowedLeadsBelow(dir: seq<Bytes>, path: Bytes)
    requires PathAllowed(path)
    ensures Resolved(dir, path) == dir + Components(path) && Components(path) != []
    ensures forall c <- Components(path) :: c != [] && SLASH !in c && BACKSLASH !in c
  {
    WalksDown(dir, Components(path));
    ComponentsExactly(path);
    forall c <- Components(path) ensures BACKSLASH !in c {
      ComponentInPath(path, c);
    }
  }

  lemma {:induction false} ComponentInPath(path: Bytes, c: Bytes)
    requires c in Components(path)
    ensures forall x <- c :: x in path
  {
    if path != [] {
      var rest := Components(path[1..]);
      if c in rest {
        ComponentInPath(path[1..], c);
      } else if path[0] != SLASH {
        ComponentInPath(path[1..], rest[0]);
      }
    }
  }

  function ValidateInnerPath(path: Bytes): Result<Unit> {
    if PathAllowed(path) then Ok(Unit) else Err(SealedOpenFailed)
  }

  function EncodeHdr(meta: FileMeta): Result<Bytes> {
    if |meta.path| > MAX_PATH_LEN then Err(BodyMalformed)
    else Ok(LE(|meta.path|, 4) + meta.path + LE(meta.mode, 4) + LE(meta.mtime, 8) + LE(meta.size, 8))
  }

  function DecodeHdr(s: Suite, b: Bytes): Result<FileMeta> {
    if |b| < 4 then Err(HeaderCorrupt)
    else
      var n := FromLE(b[..4]);
      var end := 4 + n;
      if n > MAX_PATH_LEN || end > |b| then Err(BodyMalformed)
      else if !s.utf8(b[4..end]) then Err(BodyMalformed)
      else
        var _ :- ValidateInnerPath(b[4..end]);
        if |b| < end + 20 then Err(HeaderCorrupt)
        else if FromLE(b[end + 12..end + 20]) > MAX_FILE_SIZE || |b| > end + 20 then Err(BodyMalformed)
        else
          IntegersFit(b[end..end + 4], b[end + 4..end + 12]);
          Ok(FileMeta(b[4..end], FromLE(b[end..end + 4]), FromLE(b[end + 4..end + 12]), FromLE(b[end + 12..end + 20])))
  }

  lemma IntegersFit(four: Bytes, eight: Bytes)
    requires |four| == 4 && |eight| == 8
    ensures FromLE(four) <= U32_MAX && FromLE(eight) <= U64_MAX
  {
    FromLERoundTrip(four);
    FromLERoundTrip(eight);
    Pow256Widths();
  }

  /** Metadata that can be written and read back. */
  ghost predicate Storable(s: Suite, meta: FileMeta) {
    s.utf8(meta.path) && PathAllowed(meta.path) && |meta.path| <= MAX_PATH_LEN && meta.size <= MAX_FILE_SIZE
  }

  lemma HdrSlices(meta: FileMeta, b: Bytes)
    requires EncodeHdr(meta) == Ok(b)
    ensures var end := 4 + |meta.path|;
      && |b| == end + 20 && b[..4] == LE(|meta.path|, 4) && b[4..end] == meta.path
      && b[end..end + 4] == LE(meta.mode, 4) && b[end + 4..end + 12] == LE(meta.mtime, 8)
      && b[end + 12..end + 20] == LE(meta.size, 8)
  {
  }

  lemma DecodeEncodedHdr(s: Suite, meta: FileMeta)
    requires Storable(s, meta)
    ensures EncodeHdr(meta).Ok? && |EncodeHdr(meta).value| == |meta.path| + 24
    ensures DecodeHdr(s, EncodeHdr(meta).value) == Ok(meta)
  {
    HdrSlices(meta, EncodeHdr(meta).value);
    Pow256Widths();
    LERoundTrip(|meta.path|, 4);
    LERoundTrip(meta.mode, 4);
    LERoundTrip(meta.mtime, 8);
    LERoundTrip(meta.size, 8);
  }

  // ---------------------------------------------------------------- writing an archive

  /** A body as parts of at most 64 KiB. */
  function Parts(body: Bytes): Bytes
    decreases |body|
  {
    if body == [] then []
    else Record(FILE_PART, body[..Min(|body|, MAX_PART_LEN)]) + Parts(body[Min(|body|, MAX_PART_LEN)..])
  }

  function WriteFileHdr(meta: FileMeta): Result<Bytes> {
    var _ :- ValidateInnerPath(meta.path);
    var value :- EncodeHdr(meta);
    Ok(Record(FILE_HDR, value))
  }

  function WriteFilePart(chunk: Bytes): Result<Bytes> {
    if |chunk| > MAX_PART_LEN then Err(BodyMalformed) else Ok(Record(FILE_PART, chunk))
  }

  function EntriesBytes(entries: seq<Entry>): Result<Bytes> {
    if entries == [] then Ok([])
    else
      var hdr :- WriteFileHdr(entries[0].meta);
      var rest :- EntriesBytes(entries[1..]);
      Ok(hdr + Parts(entries[0].body) + rest)
  }

  /** The archive of a list of files. */
  function ArchiveBytes(entries: seq<Entry>): Result<Bytes> {
    var bytes :- EntriesBytes(entries);
    Ok(bytes + Record(END, []))
  }

  ghost predicate StorableEntries(s: Suite, entries: seq<Entry>) {
    forall i :: 0 <= i < |entries| ==> Storable(s, entries[i].meta) && |entries[i].body| == entries[i].meta.size
  }

  // ---------------------------------------------------------------- parsing

  datatype Progress = Progress(current: Option<Entry>, files: seq<Entry>, done: bool)

  const START := Progress(None, [], false)

  /** The file being read, if any, is complete. */
  function Close(p: Progress): Result<Progress> {
    match p.current
    case None => Ok(p)
    case Some(e) =>
      if |e.body| != e.meta.size then Err(BodyMalformed) else Ok(Progress(None, p.files + [e], p.done))
  }

  function Absorb(s: Suite, p: Progress, tag: nat, value: Bytes): (r: Result<Progress>)
    ensures r.Ok? ==> r.value.done == (p.done || tag == END)
  {
    if tag == END then
      var q :- Close(p);
      Ok(q.(done := true))
    else if tag == FILE_HDR then
      var q :- Close(p);
      var meta :- DecodeHdr(s, value);
      Ok(q.(current := Some(Entry(meta, []))))
    else if tag == FILE_PART then
      match p.current
      case None => Err(BodyMalformed)
      case Some(e) =>
        if |e.body| + |value| > e.meta.size then Err(BodyMalformed)
        else Ok(p.(current := Some(Entry(e.meta, e.body + value))))
    else Err(BodyMalformed)
  }

  /** Read records until `END`, or until no whole record is left. */
  function Drain(s: Suite, b: Bytes, p: Progress): Result<(Progress, Bytes)>
    decreases |b|
  {
    match ReadRecord(b)
    case Err(e) => Err(e)
    case Ok(None) => Ok((p, b))
    case Ok(Some((tag, value, rest))) =>
      var q :- Absorb(s, p, tag, value);
      if q.done then Ok((q, rest)) else Drain(s, rest, q)
  }

  /** What the parser of complete archives returns; it does not look past `END`. */
  function ParsedAll(s: Suite, b: Bytes): Result<seq<Entry>> {
    var (p, _) :- Drain(s, b, START);
    if p.current.Some? then Err(BodyMalformed) else Ok(p.files)
  }

  method AbsorbRecord(s: Suite, current: Option<Entry>, tag: nat, value: Bytes)
    returns (r: Result<(Option<Entry>, seq<Entry>)>)
    ensures match Absorb(s, Progress(current, [], false), tag, value)
      case Err(e) => r == Err(e)
      case Ok(q) => r == Ok((q.current, q.files))
  {
    if tag == END || tag == FILE_HDR {
      var completed: seq<Entry> := [];
      if current.Some? {
        var e := current.value;
        if |e.body| != e.meta.size {
          return Err(BodyMalformed);
        }
        completed := [e];
        assert [] + [e] == [e];
      }
      if tag == END {
        return Ok((None, completed));
      }
      var meta := DecodeHdr(s, value);
      match meta
      case Err(e) => return Err(e);
      case Ok(m) => return Ok((Some(Entry(m, [])), completed));
    } else if tag == FILE_PART {
      if current.None? {
        return Err(BodyMalformed);
      }
      var e := current.value;
      if |e.body| + |value| > e.meta.size {
        return Err(BodyMalformed);
      }
      r := Ok((Some(Entry(e.meta, e.body + value)), []));
    } else {
      r := Err(BodyMalformed);
    }
  }

  /** Files already completed do not change how a record is taken. */
  lemma AbsorbAppends(s: Suite, p: Progress, tag: nat, value: Bytes)
    requires !p.done
    ensures Absorb(s, p, tag, value) ==
      match Absorb(s, Progress(p.current, [], false), tag, value)
      case Err(e) => Err(e)
      case Ok(q) => Ok(Progress(q.current, p.files + q.files, q.done))
  {
    assert p.files + [] == p.files;
    if p.current.Some? {
      assert [] + [p.current.value] == [p.current.value];
    }
  }

  /** A file read so far: an allowed path, and no more of a body than its size. */
  ghost predicate Partial(s: Suite, e: Entry) {
    PathAllowed(e.meta.path) && s.utf8(e.meta.path) && |e.body| <= e.meta.size <= 256 * 1024 * 1024 * 1024
  }

  ghost predicate Sound(s: Suite, p: Progress) {
    && (forall e <- p.files :: Partial(s, e) && |e.body| == e.meta.size)
    && (p.current.Some? ==> Partial(s, p.current.value))
  }

  lemma AbsorbSound(s: Suite, p: Progress, tag: nat, value: Bytes)
    requires Sound(s, p) && Absorb(s, p, tag, value).Ok?
    ensures Sound(s, Absorb(s, p, tag, value).value)
  {
    hide PathAllowed;
  }

  lemma {:induction false} DrainSound(s: Suite, b: Bytes, p: Progress)
    requires Sound(s, p) && Drain(s, b, p).Ok?
    ensures Sound(s, Drain(s, b, p).value.0)
    decreases |b|
  {
    hide Sound, Absorb;
    var next := ReadRecord(b);
    if next.value.Some? {
      var (tag, value, rest) := next.value.value;
      AbsorbSound(s, p, tag, value);
      if !Absorb(s, p, tag, value).value.done {
        DrainSound(s, rest, Absorb(s, p, tag, value).value);
      }
    }
  }

  /** Whatever archive is accepted, each file has an allowed path, and exactly as many bytes as its header says. */
  lemma ParsedSizes(s: Suite, b: Bytes)
    requires ParsedAll(s, b).Ok?
    ensures forall e <- ParsedAll(s, b).value :: PathAllowed(e.meta.path) && |e.body| == e.meta.size
  {
    DrainSound(s, b, START);
  }

  method ParseAll(s: Suite, b: Bytes) returns (r: Result<seq<Entry>>)
    ensures r == ParsedAll(s, b)
  {
    var cur := new Cursor(b);
    var out: seq<Entry>, current: Option<Entry> := [], None;
    assert b[0..] == b;
    while true
      invariant fresh(cur) && cur.Valid()
      invariant Drain(s, b, START) == Drain(s, cur.Rest(), Progress(current, out, false))
      decreases |cur.Rest()|
    {
      var record := ReadRecordAt(cur, MAX_RECORD_LEN);
      if record.Err? {
        return Err(record.error);
      }
      if record.value.None? {
        break;
      }
      var (tag, value) := record.value.value;
      AbsorbAppends(s, Progress(current, out, false), tag, value);
      var taken := AbsorbRecord(s, current, tag, value);
      if taken.Err? {
        return Err(taken.error);
      }
      current, out := taken.value.0, out + taken.value.1;
      if tag == END {
        return Ok(out);
      }
    }
    if current.Some? {
      return Err(BodyMalformed);
    }
    r := Ok(out);
  }

  // ---------------------------------------------------------------- round trip

  lemma DrainPart(s: Suite, meta: FileMeta, before: Bytes, part: Bytes, files: seq<Entry>, rest: Bytes)
    requires |before| + |part| <= meta.size && |part| <= MAX_PART_LEN
    ensures Drain(s, Record(FILE_PART, part) + rest, Progress(Some(Entry(meta, before)), files, false))
         == Drain(s, rest, Progress(Some(Entry(meta, before + part)), files, false))
  {
    ReadOwnRecord(FILE_PART, part, rest);
  }

  lemma {:induction false} DrainParts(s: Suite, meta: FileMeta, before: Bytes, body: Bytes, files: seq<Entry>,
                                      rest: Bytes)
    requires |before| + |body| <= meta.size
    ensures Drain(s, Parts(body) + rest, Progress(Some(Entry(meta, before)), files, false))
         == Drain(s, rest, Progress(Some(Entry(meta, before + body)), files, false))
    decreases |body|
  {
    hide Drain, Record;
    if body == [] {
      assert Parts(body) + rest == rest && before + body == before;
    } else {
      var n := Min(|body|, MAX_PART_LEN);
      var part, after := Record(FILE_PART, body[..n]), Parts(body[n..]);
      assert Parts(body) == part + after;
      Assoc(part, after, rest);
      DrainPart(s, meta, before, body[..n], files, after + rest);
      DrainParts(s, meta, before + body[..n], body[n..], files, rest);
      Assoc(before, body[..n], body[n..]);
      assert body[..n] + body[n..] == body;
    }
  }

  lemma DrainHdr(s: Suite, p: Progress, meta: FileMeta, rest: Bytes)
    requires Storable(s, meta) && !p.done && Close(p).Ok?
    ensures WriteFileHdr(meta).Ok?
    ensures Drain(s, WriteFileHdr(meta).value + rest, p)
         == Drain(s, rest, Close(p).value.(current := Some(Entry(meta, []))))
  {
    DecodeEncodedHdr(s, meta);
    ReadOwnRecord(FILE_HDR, EncodeHdr(meta).value, rest);
  }

  /** The progress once a file has been read but not yet closed. */
  lemma DrainEntry(s: Suite, p: Progress, e: Entry, rest: Bytes)
    requires Storable(s, e.meta) && |e.body| == e.meta.size && !p.done && Close(p).Ok?
    ensures WriteFileHdr(e.meta).Ok?
    ensures Drain(s, WriteFileHdr(e.meta).value + Parts(e.body) + rest, p)
         == Drain(s, rest, Close(p).value.(current := Some(e)))
  {
    hide Drain, Parts, WriteFileHdr;
    var parts := Parts(e.body);
    DrainHdr(s, p, e.meta, parts + rest);
    var hdr := WriteFileHdr(e.meta).value;
    Assoc(hdr, parts, rest);
    DrainParts(s, e.meta, [], e.body, Close(p).value.files, rest);
    assert [] + e.body == e.body;
  }

  lemma DrainEnd(s: Suite, p: Progress, rest: Bytes)
    requires !p.done && Close(p).Ok?
    ensures Drain(s, Record(END, []) + rest, p) == Ok((Progress(None, Close(p).value.files, true), rest))
  {
    ReadOwnRecord(END, [], rest);
  }

  lemma EntriesAsFirstAndRest(s: Suite, p: Progress, entries: seq<Entry>, tail: Bytes)
    requires StorableEntries(s, entries) && entries != [] && EntriesBytes(entries[1..]).Ok? && !p.done && Close(p).Ok?
    ensures EntriesBytes(entries).Ok?
    ensures Drain(s, EntriesBytes(entries).value + tail, p)
         == Drain(s, EntriesBytes(entries[1..]).value + tail, Close(p).value.(current := Some(entries[0])))
  {
    var e, after := entries[0], EntriesBytes(entries[1..]).value;
    DrainEntry(s, p, e, after + tail);
    var first := WriteFileHdr(e.meta).value + Parts(e.body);
    assert EntriesBytes(entries).value == first + after;
    Assoc(first, after, tail);
  }

  lemma {:induction false} DrainEntries(s: Suite, p: Progress, entries: seq<Entry>, tail: Bytes) returns (q: Progress)
    requires StorableEntries(s, entries) && !p.done && Close(p).Ok?
    ensures EntriesBytes(entries).Ok?
    ensures !q.done && Close(q).Ok? && Close(q).value.files == Close(p).value.files + entries
    ensures Drain(s, EntriesBytes(entries).value + tail, p) == Drain(s, tail, q)
    decreases |entries|
  {
    if entries == [] {
      q := p;
      assert EntriesBytes(entries).value + tail == tail;
      assert Close(p).value.files + entries == Close(p).value.files;
    } else {
      var e, next := entries[0], Close(p).value.(current := Some(entries[0]));
      q := DrainEntries(s, next, entries[1..], tail);
      EntriesAsFirstAndRest(s, p, entries, tail);
      assert Close(p).value.files + [e] + entries[1..] == Close(p).value.files + entries;
    }
  }

  /** A written archive parses to the files it was made of, whatever padding follows it. */
  lemma ParseWritten(s: Suite, entries: seq<Entry>, rest: Bytes)
    requires StorableEntries(s, entries)
    ensures ArchiveBytes(entries).Ok?
    ensures Drain(s, ArchiveBytes(entries).value + rest, START) == Ok((Progress(None, entries, true), rest))
    ensures ParsedAll(s, ArchiveBytes(entries).value + rest) == Ok(entries)
  {
    var q := DrainEntries(s, START, entries, Record(END, []) + rest);
    DrainEnd(s, q, rest);
    Assoc(EntriesBytes(entries).value, Record(END, []), rest);
    assert [] + entries == entries;
  }

  // ---------------------------------------------------------------- a chunk at a time

  predicate AllZero(b: Bytes) { forall i :: 0 <= i < |b| ==> b[i] == 0 }

  /** The state of the incremental parser: bytes not yet read, and what has been read. */
  datatype Parser = Parser(buf: Bytes, progress: Progress)

  const EMPTY := Parser([], START)

  function Fed(s: Suite, st: Parser, data: Bytes): Result<Parser> {
    if st.progress.done then (if AllZero(data) then Ok(st) else Err(BodyMalformed))
    else
      var (q, rest) :- Drain(s, st.buf + data, st.progress);
      Ok(Parser(rest, q))
  }

  function Finished(st: Parser): Result<Unit> {
    if !st.progress.done || st.progress.current.Some? then Err(BodyMalformed)
    else if AllZero(st.buf) then Ok(Unit)
    else Err(BodyMalformed)
  }

  function FedAll(s: Suite, st: Parser, pieces: seq<Bytes>): Result<Parser>
    decreases |pieces|
  {
    if pieces == [] then Ok(st)
    else
      var next :- Fed(s, st, pieces[0]);
      FedAll(s, next, pieces[1..])
  }

  /** Feed the pieces in turn and finish: the files, or the first error. */
  function Extracted(s: Suite, pieces: seq<Bytes>): Result<seq<Entry>> {
    var st :- FedAll(s, EMPTY, pieces);
    var _ :- Finished(st);
    Ok(st.progress.files)
  }

  // ---------------------------------------------------------------- when cutting into chunks does no harm

  /**
   The cut after `c` bytes falls inside the six-byte header of some record up to `END`. There the parser
   that is fed chunks gives up, though more bytes are to come; a cut inside a value it waits out.
   */
  predicate CutsHeader(b: Bytes, c: nat)
    decreases |b|
  {
    if c == 0 then false
    else if c < RECORD_HEADER then true
    else
      match ReadRecord(b)
      case Ok(Some((tag, _, rest))) => c >= |b| - |rest| && tag != END && CutsHeader(rest, c - (|b| - |rest|))
      case _ => false
  }

  lemma ReadMore(a: Bytes, b: Bytes)
    requires ReadRecord(a).Ok? && a != []
    ensures ReadRecord(a + b).Ok?
    ensures match ReadRecord(a).value
      case None => true
      case Some((tag, value, rest)) => ReadRecord(a + b) == Ok(Some((tag, value, rest + b)))
  {
    var all := a + b;
    var len := FromLE(a[2..RECORD_HEADER]);
    assert all[2..RECORD_HEADER] == a[2..RECORD_HEADER];
    if |a| - RECORD_HEADER >= len {
      var end := RECORD_HEADER + len;
      assert all[..2] == a[..2] && all[RECORD_HEADER..end] == a[RECORD_HEADER..end] && all[end..] == a[end..] + b;
    }
  }

  /** Reading what has come so far and then the rest is reading all of it. */
  lemma {:induction false} DrainInTwo(s: Suite, a: Bytes, b: Bytes, p: Progress)
    requires !p.done && Drain(s, a, p).Ok?
    ensures var (q, rest) := Drain(s, a, p).value;
      Drain(s, a + b, p) == if q.done then Ok((q, rest + b)) else Drain(s, rest + b, q)
    decreases |a|
  {
    if a != [] {
      ReadMore(a, b);
      match ReadRecord(a).value
      case None =>
      case Some((tag, value, rest)) =>
        var q := Absorb(s, p, tag, value).value;
        if !q.done {
          DrainInTwo(s, rest, b, q);
        }
    }
  }

  lemma ReadLess(b: Bytes, c: nat)
    requires ReadRecord(b).Ok? && 0 < c <= |b|
    ensures c < RECORD_HEADER ==> ReadRecord(b[..c]).Err?
    ensures c >= RECORD_HEADER ==>
      match ReadRecord(b).value
      case None => ReadRecord(b[..c]) == Ok(None)
      case Some((tag, value, rest)) =>
        var n := |b| - |rest|;
        && (c < n ==> ReadRecord(b[..c]) == Ok(None))
        && (c >= n ==> ReadRecord(b[..c]) == Ok(Some((tag, value, rest[..c - n]))))
  {
    if c >= RECORD_HEADER {
      var a := b[..c];
      var len := FromLE(b[2..RECORD_HEADER]);
      assert a[2..RECORD_HEADER] == b[2..RECORD_HEADER] && a[..2] == b[..2];
      if c - RECORD_HEADER >= len {
        var end := RECORD_HEADER + len;
        assert a[RECORD_HEADER..end] == b[RECORD_HEADER..end] && a[end..] == b[end..][..c - end];
      }
    }
  }

  /** The first `c` bytes of a readable string are readable exactly when the cut spares the headers. */
  lemma {:induction false} DrainPrefix(s: Suite, b: Bytes, c: nat, p: Progress)
    requires !p.done && Drain(s, b, p).Ok? && c <= |b|
    ensures Drain(s, b[..c], p).Ok? <==> !CutsHeader(b, c)
    decreases |b|
  {
    if c > 0 {
      ReadLess(b, c);
      if c >= RECORD_HEADER && ReadRecord(b).value.Some? {
        var (tag, value, rest) := ReadRecord(b).value.value;
        var n, q := |b| - |rest|, Absorb(s, p, tag, value).value;
        if c >= n && !q.done {
          DrainPrefix(s, rest, c - n, q);
        }
      }
    }
  }

  /** What draining leaves unread holds no whole record. */
  lemma {:induction false} DrainIsIdle(s: Suite, b: Bytes, p: Progress)
    requires Drain(s, b, p).Ok? && !Drain(s, b, p).value.0.done
    ensures var (q, rest) := Drain(s, b, p).value;
      Drain(s, rest, q) == Ok((q, rest))
    decreases |b|
  {
    match ReadRecord(b).value
    case None =>
    case Some((tag, value, rest)) => DrainIsIdle(s, rest, Absorb(s, p, tag, value).value);
  }

  lemma AllZeroConcat(a: Bytes, b: Bytes)
    ensures AllZero(a + b) <==> AllZero(a) && AllZero(b)
  {
    assert forall i :: 0 <= i < |a| ==> (a + b)[i] == a[i];
    assert forall i :: 0 <= i < |b| ==> (a + b)[|a| + i] == b[i];
  }

  /** After `END`, pieces are accepted as long as they are zeros, and change nothing. */
  lemma {:induction false} FedAfterEnd(s: Suite, st: Parser, pieces: seq<Bytes>)
    requires st.progress.done
    ensures FedAll(s, st, pieces) == if AllZero(Concat(pieces)) then Ok(st) else Err(BodyMalformed)
    decreases |pieces|
  {
    if pieces != [] {
      AllZeroConcat(pieces[0], Concat(pieces[1..]));
      FedAfterEnd(s, st, pieces[1..]);
    }
  }

  /** A whole archive: `END` was reached, with no file left open, and only zeros follow. */
  ghost predicate Complete(r: Result<(Progress, Bytes)>) {
    r.Ok? && r.value.0.done && r.value.0.current.None? && AllZero(r.value.1)
  }

  /** Feeding has ended well. */
  ghost predicate Accepted(r: Result<Parser>) { r.Ok? && Finished(r.value).Ok? }

  /** At every cut, the records before it can be read. */
  ghost predicate PrefixesDrain(s: Suite, st: Parser, pieces: seq<Bytes>) {
    forall i {:trigger pieces[..i]} :: 0 <= i <= |pieces| ==> Drain(s, st.buf + Concat(pieces[..i]), st.progress).Ok?
  }

  /** The prefixes of a run, from its second piece on, are those of the run that starts after the first. */
  lemma PrefixAfterFirst(s: Suite, st: Parser, pieces: seq<Bytes>, i: nat)
    requires !st.progress.done && pieces != [] && 0 < i <= |pieces|
    requires Drain(s, st.buf + pieces[0], st.progress).Ok?
    ensures var (q, rest) := Drain(s, st.buf + pieces[0], st.progress).value;
      Drain(s, st.buf + Concat(pieces[..i]), st.progress)
      == if q.done then Ok((q, rest + Concat(pieces[1..][..i - 1])))
          else Drain(s, rest + Concat(pieces[1..][..i - 1]), q)
  {
    var more := Concat(pieces[1..][..i - 1]);
    assert pieces[..i][1..] == pieces[1..][..i - 1];
    assert Concat(pieces[..i]) == pieces[0] + more;
    Assoc(st.buf, pieces[0], more);
    DrainInTwo(s, st.buf + pieces[0], more, st.progress);
  }

  lemma PrefixesAfterFirst(s: Suite, st: Parser, pieces: seq<Bytes>)
    requires !st.progress.done && pieces != [] && Drain(s, st.buf, st.progress).Ok?
    requires Drain(s, st.buf + pieces[0], st.progress).Ok?
    ensures var (q, rest) := Drain(s, st.buf + pieces[0], st.progress).value;
      PrefixesDrain(s, st, pieces) <==> q.done || PrefixesDrain(s, Parser(rest, q), pieces[1..])
  {
    var (q, rest) := Drain(s, st.buf + pieces[0], st.progress).value;
    assert st.buf + Concat(pieces[..0]) == st.buf;
    forall i | 0 < i <= |pieces|
      ensures Drain(s, st.buf + Concat(pieces[..i]), st.progress).Ok? <==>
        q.done || Drain(s, rest + Concat(pieces[1..][..i - 1]), q).Ok?
    {
      PrefixAfterFirst(s, st, pieces, i);
    }
    if PrefixesDrain(s, st, pieces) && !q.done {
      forall j | 0 <= j <= |pieces| - 1 ensures Drain(s, rest + Concat(pieces[1..][..j]), q).Ok? {
        assert Drain(s, st.buf + Concat(pieces[..j + 1]), st.progress).Ok?;
        assert pieces[1..][..(j + 1) - 1] == pieces[1..][..j];
      }
    }
  }

  lemma {:induction false} FedExactly(s: Suite, st: Parser, pieces: seq<Bytes>)
    requires !st.progress.done && Drain(s, st.buf, st.progress) == Ok((st.progress, st.buf))
    ensures var whole := Drain(s, st.buf + Concat(pieces), st.progress);
      && (Accepted(FedAll(s, st, pieces)) <==> Complete(whole) && PrefixesDrain(s, st, pieces))
      && (Accepted(FedAll(s, st, pieces)) ==> FedAll(s, st, pieces).value.progress == whole.value.0)
    decreases |pieces|
  {
    if pieces == [] {
      assert st.buf + Concat(pieces) == st.buf;
    } else if Drain(s, st.buf + pieces[0], st.progress).Err? {
      assert pieces[..1] == [pieces[0]] && pieces[..1][1..] == [];
      assert Concat(pieces[..1]) == pieces[0] + [] == pieces[0];
    } else {
      var (q, rest) := Drain(s, st.buf + pieces[0], st.progress).value;
      assert pieces[..|pieces|] == pieces && pieces[1..][..|pieces| - 1] == pieces[1..];
      PrefixAfterFirst(s, st, pieces, |pieces|);
      PrefixesAfterFirst(s, st, pieces);
      if q.done {
        FedAfterEnd(s, Parser(rest, q), pieces[1..]);
        AllZeroConcat(rest, Concat(pieces[1..]));
      } else {
        DrainIsIdle(s, st.buf + pieces[0], st.progress);
        FedExactly(s, Parser(rest, q), pieces[1..]);
      }
    }
  }

  /** Where the pieces are cut. */
  ghost predicate CutsSpareHeaders(pieces: seq<Bytes>) {
    forall i {:trigger pieces[..i]} :: 0 <= i <= |pieces| ==> !CutsHeader(Concat(pieces), |Concat(pieces[..i])|)
  }

  /**
   The parser fed chunks accepts a byte string exactly when it accepts it in one piece and no cut falls
   inside a record header; it then yields the same files, which are also those of the parser of complete
   archives. This holds for all byte strings and all ways of cutting them.
   */
  lemma ExtractedExactly(s: Suite, pieces: seq<Bytes>)
    ensures Extracted(s, pieces).Ok? <==> Extracted(s, [Concat(pieces)]).Ok? && CutsSpareHeaders(pieces)
    ensures Extracted(s, pieces).Ok? ==>
      Extracted(s, pieces) == Extracted(s, [Concat(pieces)]) == ParsedAll(s, Concat(pieces))
  {
    var b := Concat(pieces);
    assert [] + b == b;
    var once: seq<Bytes> := [b];
    assert once[1..] == [] && FedAll(s, EMPTY, once) == Fed(s, EMPTY, b);
    FedExactly(s, EMPTY, pieces);
    if Drain(s, b, START).Ok? {
      forall i | 0 <= i <= |pieces|
        ensures Drain(s, EMPTY.buf + Concat(pieces[..i]), START).Ok? <==> !CutsHeader(b, |Concat(pieces[..i])|)
      {
        ConcatPrefix(pieces, i);
        assert EMPTY.buf + Concat(pieces[..i]) == b[..|Concat(pieces[..i])|];
        DrainPrefix(s, b, |Concat(pieces[..i])|, START);
      }
    }
  }

  lemma {:induction false} ConcatPrefix(pieces: seq<Bytes>, n: nat)
    requires n <= |pieces|
    ensures |Concat(pieces[..n])| <= |Concat(pieces)|
    ensures Concat(pieces[..n]) == Concat(pieces)[..|Concat(pieces[..n])|]
  {
    if n > 0 {
      assert pieces[..n][1..] == pieces[1..][..n - 1];
      ConcatPrefix(pieces[1..], n - 1);
    }
  }

  lemma AppendTwice(a: seq<Entry>, b: seq<Entry>, c: seq<Entry>)
    ensures a + b + c == a + (b + c)
  {
  }

  /** One record taken in, then the others. */
  lemma DrainStep(s: Suite, b: Bytes, p: Progress)
    ensures ReadRecord(b).Err? ==> Drain(s, b, p) == Err(ReadRecord(b).error)
    ensures ReadRecord(b).Ok? && ReadRecord(b).value.None? ==> Drain(s, b, p) == Ok((p, b))
    ensures ReadRecord(b).Ok? && ReadRecord(b).value.Some? ==>
      var next := ReadRecord(b).value.value;
      var taken := Absorb(s, p, next.0, next.1);
      Drain(s, b, p) ==
        if taken.Err? then Err(taken.error)
        else if taken.value.done then Ok((taken.value, next.2))
        else Drain(s, next.2, taken.value)
  {
    hide Absorb, NextRecord;
  }

  class IncrementalParser {
    const suite: Suite
    var buf: Bytes
    var current: Option<Entry>
    var done: bool
    ghost var files: seq<Entry>           // every file completed so far

    ghost function View(): Parser
      reads this
    {
      Parser(buf, Progress(current, files, done))
    }

    constructor (suite: Suite)
      ensures View() == EMPTY && this.suite == suite
    {
      this.suite := suite;
      buf, current, done, files := [], None, false, [];
    }

    /** The next record of the buffer, which it leaves. */
    method TakeRecord() returns (r: Result<Option<(nat, Bytes)>>)
      modifies this`buf
      ensures ReadRecord(old(buf)).Err? ==> r == Err(ReadRecord(old(buf)).error)
      ensures ReadRecord(old(buf)).Ok? && ReadRecord(old(buf)).value.None? ==> r == Ok(None) && buf == old(buf)
      ensures ReadRecord(old(buf)).Ok? && ReadRecord(old(buf)).value.Some? ==>
        var next := ReadRecord(old(buf)).value.value;
        r == Ok(Some((next.0, next.1))) && buf == next.2
    {
      hide NextRecord;
      var cur := new Cursor(buf);
      assert buf[0..] == buf;
      r := ReadRecordAt(cur, MAX_RECORD_LEN);
      if r.Ok? && r.value.Some? {
        buf := buf[cur.pos..];
      }
    }

    /** The files `data` completes. */
    method Feed(data: Bytes) returns (r: Result<seq<Entry>>)
      modifies this
      ensures match Fed(suite, old(View()), data)
        case Err(e) => r == Err(e)
        case Ok(st) => View() == st && r.Ok? && st.progress.files == old(files) + r.value
    {
      if done {
        assert files + [] == files;
        return if AllZero(data) then Ok([]) else Err(BodyMalformed);
      }
      hide Absorb, ReadRecord, Drain;
      ghost var whole := Drain(suite, buf + data, View().progress);
      buf := buf + data;
      var completed: seq<Entry> := [];
      assert files + [] == files;
      while true
        invariant !done && files == old(files) + completed
        invariant whole == Drain(suite, buf, View().progress)
        decreases |buf|
      {
        DrainStep(suite, buf, View().progress);
        var record := TakeRecord();
        if record.Err? {
          return Err(record.error);
        }
        if record.value.None? {
          break;
        }
        var (tag, value) := record.value.value;
        AbsorbAppends(suite, View().progress, tag, value);
        var taken := AbsorbRecord(suite, current, tag, value);
        if taken.Err? {
          return Err(taken.error);
        }
        AppendTwice(old(files), completed, taken.value.1);
        current, files := taken.value.0, files + taken.value.1;
        completed := completed + taken.value.1;
        if tag == END {
          done := true;
          break;
        }
      }
      r := Ok(completed);
    }

    method Finish() returns (r: Result<Unit>)
      ensures r == Finished(View())
    {
      if !done || current.Some? {
        return Err(BodyMalformed);
      }
      if buf != [] && AllZero(buf) {
        return Ok(Unit);
      }
      r := if buf == [] then Ok(Unit) else Err(BodyMalformed);
    }
  }
}
