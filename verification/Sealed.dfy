/** Sealed file containers: header-only edits, sealing a list of files, listing and extracting them (sealed.rs). */
module Sealed {
  import opened Bytes
  import opened Primitives
  import opened Pad
  import opened Headers
  import opened StanzaTails
  import opened Envelope
  import opened Keyring
  import opened Unlock
  import opened Body
  import opened Containers
  import opened Archive
  import opened Offsets
  import opened Tlv
  import Stream
  import BlockStream
  import Staging

  // ---------------------------------------------------------------- unlocking

  function MapUnlockErr(e: Error): Error { if e == HeaderAuth then HeaderAuth else SealedOpenFailed }

  /** Map the unwrapping's error; a key that was unwrapped must also verify the header. */
  function Checked(s: Suite, h: Header, dk: Result<Bytes>): Result<Bytes> {
    match dk
    case Err(e) => Err(MapUnlockErr(e))
    case Ok(k) => if VerifyHmac(s, h, k).Ok? then Ok(k) else Err(SealedOpenFailed)
  }

  function UnwrapSealed(s: Suite, h: Header, pw: Bytes, hw: Option<Responder>, keyfile: Option<Bytes>): Result<Bytes> {
    var p := ParamsOf(h);
    if hw.Some? && Has(h.stanzas, PW_YUBIKEY) then
      var st, respond := h.stanzas[Find(h.stanzas, PW_YUBIKEY).value], hw.value;
      var challenge :- YubiKeyChallenge(st);
      var response :- respond(challenge);
      Checked(s, h, UnwrapYubiKey(s, st, pw, response, p))
    else if keyfile.Some? && Has(h.stanzas, PW_KEYFILE) then
      Checked(s, h, UnwrapKeyfile(s, h.stanzas[Find(h.stanzas, PW_KEYFILE).value], pw, keyfile.value, p))
    else Checked(s, h, TryPasswords(s, h.stanzas, pw, p, HeaderAuth))
  }

  method UnlockKey(s: Suite, h: Header, pw: Bytes, hw: Option<Responder>,
                   keyfile: Option<Bytes>) returns (r: Result<Bytes>)
    ensures r == UnwrapSealed(s, h, pw, hw, keyfile)
  {
    var p := ParamsOf(h);
    var dk: Result<Bytes>;
    var composite, file := Find(h.stanzas, PW_YUBIKEY), Find(h.stanzas, PW_KEYFILE);
    if hw.Some? && composite.Some? {
      var st, respond := h.stanzas[composite.value], hw.value;
      var challenge := YubiKeyChallenge(st);
      if challenge.Err? {
        return Err(challenge.error);
      }
      var response := respond(challenge.value);
      if response.Err? {
        return Err(response.error);
      }
      dk := UnwrapYubiKey(s, st, pw, response.value, p);
    } else if keyfile.Some? && file.Some? {
      dk := UnwrapKeyfile(s, h.stanzas[file.value], pw, keyfile.value, p);
    } else {
      dk := TryPasswordStanzas(s, h.stanzas, pw, p);
    }
    if dk.Err? {
      return Err(MapUnlockErr(dk.error));
    }
    r := if VerifyHmac(s, h, dk.value).Ok? then dk else Err(SealedOpenFailed);
  }

  // ---------------------------------------------------------------- listing and extracting

  function PeekEntries(s: Suite, b: Bytes, pw: Bytes, hw: Option<Responder>,
                       keyfile: Option<Bytes>): Result<seq<Entry>> {
    match Parse(s, b, Some(SealedFile))
    case Err(e) => Err(e)
    case Ok(h) =>
      var dk :- UnwrapSealed(s, h, pw, hw, keyfile);
      ParsedSerializes(s, b, Some(SealedFile));
      match OpenedBody(s, KeysOf(h, dk), b[OnDiskLen(h)..])
      case Err(_) => Err(SealedOpenFailed)
      case Ok(pt) =>
        match ParsedAll(s, pt)
        case Err(_) => Err(SealedOpenFailed)
        case Ok(files) => Ok(files)
  }

  method Peek(s: Suite, b: Bytes, pw: Bytes, hw: Option<Responder>,
              keyfile: Option<Bytes>) returns (r: Result<seq<Entry>>)
    ensures r == PeekEntries(s, b, pw, hw, keyfile)
  {
    var parsed := Parse(s, b, Some(SealedFile));
    if parsed.Err? {
      return Err(parsed.error);
    }
    var h := parsed.value;
    var dk := UnlockKey(s, h, pw, hw, keyfile);
    if dk.Err? {
      return Err(dk.error);
    }
    ParsedSerializes(s, b, Some(SealedFile));
    var pt := OpenBody(s, KeysOf(h, dk.value), b[OnDiskLen(h)..]);
    if pt.Err? {
      return Err(SealedOpenFailed);
    }
    var files := ParseAll(s, pt.value);
    match files
    case Err(_) => return Err(SealedOpenFailed);
    case Ok(v) => r := Ok(v);
  }

  /**
   Sealed containers open for the same secrets as vaults do: listing succeeds exactly when those secrets unwrap
   a data key under which the whole file opens to an archive. Without a device there are two errors only, and
   the ambiguous one exactly when it is that of the unwrapping.
   */
  lemma UnlocksAsVaults(s: Suite, b: Bytes, pw: Bytes, hw: Option<Responder>, keyfile: Option<Bytes>)
    requires Parse(s, b, Some(SealedFile)).Ok?
    ensures var dk := UnwrapDataKey(s, Parse(s, b, Some(SealedFile)).value, pw, hw, keyfile);
      && (PeekEntries(s, b, pw, hw, keyfile).Ok? <==>
            && dk.Ok? && OpenUnder(s, b, Some(SealedFile), dk.value).Ok?
            && ParsedAll(s, OpenUnder(s, b, Some(SealedFile), dk.value).value.plaintext).Ok?)
      && (PeekEntries(s, b, pw, hw, keyfile).Ok? ==>
            PeekEntries(s, b, pw, hw, keyfile)
                == ParsedAll(s, OpenUnder(s, b, Some(SealedFile), dk.value).value.plaintext))
      && (hw.None? && PeekEntries(s, b, pw, hw, keyfile).Err? ==>
            PeekEntries(s, b, pw, hw, keyfile).error == if dk == Err(HeaderAuth) then HeaderAuth else SealedOpenFailed)
  {
    hide OpenedBody, ParsedAll, VerifyHmac, TryPasswords, UnwrapKeyfile, UnwrapYubiKey;
    var h := Parse(s, b, Some(SealedFile)).value;
    ParsedSerializes(s, b, Some(SealedFile));
    assert UnwrapSealed(s, h, pw, hw, keyfile).Ok? <==>
      UnwrapDataKey(s, h, pw, hw, keyfile).Ok? && VerifyHmac(s, h, UnwrapDataKey(s, h, pw, hw, keyfile).value).Ok?;
  }

  /** The byte string is one of the sealed containers saved, and the secrets unwrap the data key from its header. */
  ghost predicate ListsSave(s: Suite, saves: seq<Save>, i: nat, dk: Bytes, pw: Bytes, hw: Option<Responder>,
                            keyfile: Option<Bytes>, b: Bytes)
    requires i < |saves|
  {
    && b == FileOf(s, saves[i], dk) && KindOf(saves[i].header.magic) == Some(SealedFile)
    && UnwrapDataKey(s, saves[i].header, pw, hw, keyfile) == Ok(dk)
  }

  /**
   Under ideal MACs, secrets that unwrap the data key list a byte string exactly when it is one of the files saved
   under that key and what was saved is an archive; they then list the files of that archive.
   */
  lemma OnlySavedLists(s: Suite, saves: seq<Save>, dk: Bytes, pw: Bytes, hw: Option<Responder>, keyfile: Option<Bytes>,
                       b: Bytes)
    requires Sized(s) && HonestSaves(s, saves, dk) && HeaderVerifiesOnly(s, saves, dk)
    requires Parse(s, b, Some(SealedFile)).Ok?
    requires UnwrapDataKey(s, Parse(s, b, Some(SealedFile)).value, pw, hw, keyfile) == Ok(dk)
    ensures PeekEntries(s, b, pw, hw, keyfile).Ok? <==>
      exists i {:trigger saves[i]} :: 0 <= i < |saves| && ListsSave(s, saves, i, dk, pw, hw, keyfile, b)
        && ParsedAll(s, saves[i].plaintext).Ok?
    ensures forall i {:trigger saves[i]} ::
      0 <= i < |saves| && ListsSave(s, saves, i, dk, pw, hw, keyfile, b) && ParsedAll(s, saves[i].plaintext).Ok?
      ==> PeekEntries(s, b, pw, hw, keyfile) == ParsedAll(s, saves[i].plaintext)
  {
    hide HonestSave, FileOf, PeekEntries, OpenUnder, UnwrapDataKey, ParsedAll;
    UnlocksAsVaults(s, b, pw, hw, keyfile);
    AcceptsOnlyHonest(s, saves, dk, b, Some(SealedFile));
    forall i | 0 <= i < |saves| && b == FileOf(s, saves[i], dk) && KindOf(saves[i].header.magic) == Some(SealedFile)
      ensures Parse(s, b, Some(SealedFile)) == Ok(saves[i].header)
      ensures ListsSave(s, saves, i, dk, pw, hw, keyfile, b)
    {
      HonestFileOpens(s, saves[i], dk, Some(SealedFile));
    }
  }

  /** Decrypting chunk by chunk into the incremental parser. */
  function ExtractFrom(s: Suite, key: Bytes, ct: Bytes, counter: nat, st: Parser): Result<Parser>
    decreases |ct|
  {
    match Stream.NextChunk(s, key, ct, counter)
    case Err(e) => Err(e)
    case Ok(None) => Ok(st)
    case Ok(Some((p, rest, next))) =>
      var fed :- Fed(s, st, p);
      ExtractFrom(s, key, rest, next, fed)
  }

  function ExtractBody(s: Suite, keys: BodyKeys, body: Bytes): Result<seq<Entry>> {
    var ct :- BlockStream.ReadFrom(s, keys.Mac(), body, 0);
    var st :- ExtractFrom(s, keys.Aead(s), ct, 0, EMPTY);
    if Finished(st).Err? then Err(SealedOpenFailed) else Ok(st.progress.files)
  }

  function OpenToDir(s: Suite, b: Bytes, pw: Bytes, hw: Option<Responder>, keyfile: Option<Bytes>): Result<seq<Entry>> {
    match Parse(s, b, Some(SealedFile))
    case Err(e) => Err(e)
    case Ok(h) =>
      var dk :- UnwrapSealed(s, h, pw, hw, keyfile);
      ParsedSerializes(s, b, Some(SealedFile));
      match ExtractBody(s, KeysOf(h, dk), b[OnDiskLen(h)..])
      case Err(_) => Err(SealedOpenFailed)
      case Ok(files) => Ok(files)
  }

  /** Files once completed stay the first of all. */
  lemma {:induction false} DrainGrows(s: Suite, b: Bytes, p: Progress)
    requires Drain(s, b, p).Ok? && !p.done
    ensures p.files <= Drain(s, b, p).value.0.files
    decreases |b|
  {
    DrainStep(s, b, p);
    var next := ReadRecord(b);
    if next.Ok? && next.value.Some? {
      var (tag, value, rest) := next.value.value;
      AbsorbAppends(s, p, tag, value);
      if !Absorb(s, p, tag, value).value.done {
        DrainGrows(s, rest, Absorb(s, p, tag, value).value);
      }
    }
  }

  lemma {:induction false} ExtractGrows(s: Suite, key: Bytes, ct: Bytes, counter: nat, st: Parser)
    requires ExtractFrom(s, key, ct, counter, st).Ok?
    ensures st.progress.files <= ExtractFrom(s, key, ct, counter, st).value.progress.files
    decreases |ct|
  {
    hide Drain, Stream.NextChunk;
    var next := Stream.NextChunk(s, key, ct, counter);
    if next.value.Some? {
      var (p, rest, n) := next.value.value;
      if !st.progress.done {
        DrainGrows(s, st.buf + p, st.progress);
      }
      ExtractGrows(s, key, rest, n, Fed(s, st, p).value);
    }
  }

  /**
   Decrypting into the parser, writing each file to the staging directory as it is completed, and moving them to
   their places at the end.
   */
  method ExtractStreaming(s: Suite, keys: BodyKeys, body: Bytes, disk: Staging.Disk)
    returns (r: Result<Unit>, ghost order: seq<Staging.Path>)
    requires Staging.Ready(disk.tree)
    modifies disk
    ensures Staging.Ready(disk.tree)
    ensures ExtractBody(s, keys, body).Err? ==>
      r.Err? && Staging.Cleared(disk.tree) == Staging.Cleared(old(disk.tree))
    ensures ExtractBody(s, keys, body).Ok? ==>
      match Staging.StagedAll(old(disk.tree), ExtractBody(s, keys, body).value)
      case Err(e) => r == Err(e) && Staging.Cleared(disk.tree) == Staging.Cleared(old(disk.tree))
      case Ok(staged) => Staging.Lists(order, staged) && (disk.tree, r) == Staging.Promoted(staged, order)
  {
    order := [];
    ghost var start := disk.tree;
    var ct := BlockStream.Read(s, keys.Mac(), body);
    if ct.Err? {
      return Err(ct.error), [];
    }
    var dec := new Stream.StreamDecryptor(s, keys.dataKey, keys.noncePrefix, ct.value);
    var parser := new IncrementalParser(s);
    ghost var whole := ExtractFrom(s, dec.key, ct.value, 0, EMPTY);
    while true
      invariant fresh(dec) && fresh(parser) && parser.suite == s && dec.suite == s && dec.key == keys.Aead(s)
      invariant whole == ExtractFrom(s, dec.key, dec.rest, dec.counter, parser.View())
      invariant Staging.StagedAll(start, parser.files) == Ok(disk.tree)
      invariant Staging.Cleared(disk.tree) == Staging.Cleared(start) && Staging.Ready(disk.tree)
      decreases |dec.rest|
    {
      var chunk := dec.NextPlaintextChunk();
      match chunk
      case Err(e) => return Err(e), [];
      case Ok(None) => break;
      case Ok(Some(p)) =>
        var completed := parser.Feed(p);
        match completed {
          case Err(e) => return Err(e), [];
          case Ok(files) =>
            var staged := StageFiles(disk, files, start, parser.files[..|parser.files| - |files|]);
            if staged.Err? {
              if whole.Ok? {
                ExtractGrows(s, dec.key, dec.rest, dec.counter, parser.View());
                Staging.StagedPrefix(start, parser.files, whole.value.progress.files);
              }
              return Err(staged.error), [];
            }
        }
    }
    var finished := parser.Finish();
    if finished.Err? {
      return Err(SealedOpenFailed), [];
    }
    r, order := disk.PromoteStaging();
  }

  /** The files a chunk completes. */
  method StageFiles(disk: Staging.Disk, files: seq<Entry>, ghost start: Staging.Tree, ghost before: seq<Entry>)
    returns (r: Result<Unit>)
    requires Staging.StagedAll(start, before) == Ok(disk.tree) && Staging.Ready(disk.tree)
    modifies disk
    ensures Staging.Cleared(disk.tree) == Staging.Cleared(old(disk.tree)) && Staging.Ready(disk.tree)
    ensures r.Ok? ==> Staging.StagedAll(start, before + files) == Ok(disk.tree)
    ensures r.Err? ==> Staging.StagedAll(start, before + files) == Err(r.error)
  {
    assert before + files[..0] == before;
    for i := 0 to |files|
      invariant Staging.StagedAll(start, before + files[..i]) == Ok(disk.tree)
      invariant Staging.Cleared(disk.tree) == Staging.Cleared(old(disk.tree)) && Staging.Ready(disk.tree)
    {
      var next := before + files[..i + 1];
      assert next[..|next| - 1] == before + files[..i] && next[|next| - 1] == files[i];
      ghost var was := disk.tree;
      r := disk.WriteStagedFile(files[i]);
      Staging.OneMore(start, next);
      Staging.StagedClears(was, files[i]);
      if r.Err? {
        Staging.StagedPrefix(start, next, before + files);
        return;
      }
    }
    assert files[..|files|] == files;
    r := Ok(Unit);
  }

  /** What extracting to a directory comes to: nothing of the archive unless it can be read to its end. */
  function ExtractToDir(s: Suite, keys: BodyKeys, body: Bytes, t: Staging.Tree, order: seq<Staging.Path>)
    : (Staging.Tree, Result<Unit>)
  {
    if [Staging.STAGING_DIR] in t.files then (t, Err(Io))
    else
      match ExtractBody(s, keys, body)
      case Err(e) => (Staging.Cleared(t), Err(e))
      case Ok(entries) => Staging.Extraction(t, entries, order)
  }

  /** In place. An archive that cannot be read may also fail first where one of its files cannot be staged. */
  method ExtractInto(s: Suite, keys: BodyKeys, body: Bytes, disk: Staging.Disk)
    returns (r: Result<Unit>, ghost order: seq<Staging.Path>)
    modifies disk
    ensures ExtractBody(s, keys, body).Ok? && [Staging.STAGING_DIR] !in old(disk.tree).files ==>
      Staging.Walk(old(disk.tree), ExtractBody(s, keys, body).value, order)
    ensures disk.tree == ExtractToDir(s, keys, body, old(disk.tree), order).0
    ensures r.Ok? <==> ExtractToDir(s, keys, body, old(disk.tree), order).1.Ok?
    ensures ExtractBody(s, keys, body).Ok? ==> r == ExtractToDir(s, keys, body, old(disk.tree), order).1
  {
    var removed := disk.RemoveStaging();
    if removed.Err? {
      return removed, [];
    }
    disk.MakeStaging();
    r, order := ExtractStreaming(s, keys, body, disk);
    var _ := disk.RemoveStaging();
  }

  /** One chunk decrypted and fed, then the others. */
  lemma ExtractStep(s: Suite, key: Bytes, ct: Bytes, counter: nat, st: Parser, p: Bytes, rest: Bytes, next: nat,
                    others: seq<Bytes>)
    requires Stream.NextChunk(s, key, ct, counter) == Ok(Some((p, rest, next)))
    requires Fed(s, st, p).Ok? ==>
      ExtractFrom(s, key, rest, next, Fed(s, st, p).value) == FedAll(s, Fed(s, st, p).value, others)
    ensures ExtractFrom(s, key, ct, counter, st) == FedAll(s, st, [p] + others)
  {
    assert ([p] + others)[1..] == others;
  }

  lemma ExtractNothing(s: Suite, key: Bytes, counter: nat, st: Parser)
    ensures ExtractFrom(s, key, [], counter, st) == FedAll(s, st, []) == Ok(st)
  {
  }

  /** Extracting from an honest ciphertext feeds the parser the plaintext's chunks. */
  lemma {:induction false} ExtractSealedFrom(s: Suite, key: Bytes, pt: Bytes, i: nat, st: Parser)
    requires Sized(s) && Stream.OpensOwn(s, key, pt) && i <= Stream.LastIndex(pt) <= U64_MAX
    ensures ExtractFrom(s, key, Stream.SealedFrom(s, key, pt, i), i, st) == FedAll(s, st, Stream.ChunksFrom(pt, i))
    decreases Stream.LastIndex(pt) - i
  {
    hide Stream.SealedFrom, Stream.NextChunk, Fed;
    var first, ct := Stream.Chunk(pt, i), Stream.SealedFrom(s, key, pt, i);
    Stream.NextOwnChunk(s, key, pt, i);
    if i < Stream.LastIndex(pt) {
      var rest, others := Stream.SealedFrom(s, key, pt, i + 1), Stream.ChunksFrom(pt, i + 1);
      if Fed(s, st, first).Ok? {
        ExtractSealedFrom(s, key, pt, i + 1, Fed(s, st, first).value);
      }
      ExtractStep(s, key, ct, i, st, first, rest, i + 1, others);
    } else {
      if Fed(s, st, first).Ok? {
        ExtractNothing(s, key, i, Fed(s, st, first).value);
      }
      ExtractStep(s, key, ct, i, st, first, [], i, []);
      assert [first] + [] == [first];
    }
  }

  /** No multiple of 64 KiB, short of the end, falls inside a record header of the archive. */
  ghost predicate HeadersOffBoundaries(pt: Bytes) {
    forall i {:trigger CutsHeader(pt, i * Stream.STREAM_CHUNK_SIZE)} ::
      0 < i <= Stream.LastIndex(pt) ==> !CutsHeader(pt, i * Stream.STREAM_CHUNK_SIZE)
  }

  lemma ChunkCuts(s: Suite, pt: Bytes)
    requires Drain(s, pt, START).Ok?
    ensures CutsSpareHeaders(Stream.Chunks(pt)) <==> HeadersOffBoundaries(pt)
  {
    var chunks, last := Stream.Chunks(pt), Stream.LastIndex(pt);
    Stream.ChunksConcat(pt, last + 1);
    assert chunks[..last + 1] == chunks;
    forall i | 0 <= i <= |chunks|
      ensures |Concat(chunks[..i])| == if i == last + 1 then |pt| else i * Stream.STREAM_CHUNK_SIZE
    {
      Stream.ChunksConcat(pt, i);
    }
    DrainPrefix(s, pt, |pt|, START);
    assert pt[..|pt|] == pt;
    if CutsSpareHeaders(chunks) {
      forall i | 0 < i <= last ensures !CutsHeader(pt, i * Stream.STREAM_CHUNK_SIZE) {
        assert |Concat(chunks[..i])| == i * Stream.STREAM_CHUNK_SIZE;
      }
    }
  }

  /** In terms of the files: each record's six-byte header lies within one 64 KiB chunk. */
  lemma OffBoundariesExactly(s: Suite, mode: PadMode, entries: seq<Entry>, archive: Bytes)
    requires StorableEntries(s, entries) && ArchiveBytes(entries) == Ok(archive)
    ensures HeadersOffBoundaries(Padded(mode, archive)) <==> HeadersWithinChunks(entries)
  {
    hide CutsHeader, HeaderOffset, WithinChunk, ArchiveBytes, Padded, Storable, Drain;
    var pt := Padded(mode, archive);
    ParsePadded(s, mode, entries, archive);
    assert pt == archive + pt[|archive|..];
    forall c: nat ensures CutsHeader(pt, c) <==> CutsAHeader(entries, c) {
      CutsExactly(s, entries, pt[|archive|..], c);
    }
    if HeadersOffBoundaries(pt) {
      forall o: nat | HeaderOffset(entries, o) ensures WithinChunk(o) {
        CutAfter(o);
        HeaderFits(s, entries, o);
        var i := o / Stream.STREAM_CHUNK_SIZE + 1;
        assert i * Stream.STREAM_CHUNK_SIZE < o + RECORD_HEADER ==> i <= Stream.LastIndex(pt);
        assert !(0 < i <= Stream.LastIndex(pt)) || !CutsHeader(pt, i * Stream.STREAM_CHUNK_SIZE);
      }
    }
    if HeadersWithinChunks(entries) {
      forall i | 0 < i <= Stream.LastIndex(pt) ensures !CutsHeader(pt, i * Stream.STREAM_CHUNK_SIZE) {
        if CutsAHeader(entries, i * Stream.STREAM_CHUNK_SIZE) {
          var o: nat :| HeaderOffset(entries, o) && o < i * Stream.STREAM_CHUNK_SIZE < o + RECORD_HEADER;
          CutIsAfter(o, i);
        }
      }
    }
  }

  /**
   What becomes of a sealed archive. Listing it always gives back its files. Extracting it, which feeds
   the parser 64 KiB at a time, does so exactly when every record's header lies within one chunk, which the
   lengths of the names and contents alone decide.
   */
  lemma ExtractSealed(s: Suite, keys: BodyKeys, mode: PadMode, entries: seq<Entry>, archive: Bytes)
    requires Sized(s) && Correct(s) && StorableEntries(s, entries)
    requires ArchiveBytes(entries) == Ok(archive) && |archive| <= ISIZE_MAX
    ensures var pt := Padded(mode, archive); var body := SealedBody(s, keys, pt);
      && OpenedBody(s, keys, body) == Ok(pt) && ParsedAll(s, pt) == Ok(entries)
      && (ExtractBody(s, keys, body).Ok? <==> HeadersWithinChunks(entries))
      && (HeadersWithinChunks(entries) ==> ExtractBody(s, keys, body) == Ok(entries))
  {
    var pt := Padded(mode, archive);
    PaddedFits(mode, |archive|);
    OpenSealed(s, keys, pt);
    ParsePadded(s, mode, entries, archive);
    ExtractIsFeeding(s, keys, pt);
    ExtractedExactly(s, Stream.Chunks(pt));
    ChunkCuts(s, pt);
    OffBoundariesExactly(s, mode, entries, archive);
    ExtractedWhole(s, entries, pt, archive);
  }

  /**
   From sealing to the directory: where none of the files exist yet, extracting a sealed archive succeeds with every
   file in its place if and only if every record's header lies within one chunk and the names and the directory are
   `Extractable`. If some header does not, nothing of the archive is left in the directory.
   */
  lemma SealedExtractsExactly(s: Suite, keys: BodyKeys, mode: PadMode, entries: seq<Entry>, archive: Bytes,
                              t: Staging.Tree, order: seq<Staging.Path>)
    requires Sized(s) && Correct(s) && StorableEntries(s, entries)
    requires ArchiveBytes(entries) == Ok(archive) && |archive| <= ISIZE_MAX
    requires Staging.Walk(t, entries, order) && forall e <- entries :: Staging.PlaceOf(e) !in t.files
    ensures var (after, r) := ExtractToDir(s, keys, SealedBody(s, keys, Padded(mode, archive)), t, order);
      && (r.Ok? && Staging.AllThere(after, entries) <==>
          HeadersWithinChunks(entries) && Staging.Extractable(t, entries))
      && (!HeadersWithinChunks(entries) ==> r.Err? && Staging.Cleared(after) == Staging.Cleared(t))
  {
    hide ExtractBody, SealedBody, OpenedBody, ParsedAll, HeadersWithinChunks, Padded, ArchiveBytes, StorableEntries,
      Staging.Extraction, Staging.Walk, Staging.AllThere;
    ExtractSealed(s, keys, mode, entries, archive);
    Staging.ExtractsExactly(t, entries, order);
    assert Staging.Cleared(Staging.Cleared(t)) == Staging.Cleared(t);
  }

  lemma ParsePadded(s: Suite, mode: PadMode, entries: seq<Entry>, archive: Bytes)
    requires StorableEntries(s, entries) && ArchiveBytes(entries) == Ok(archive)
    ensures var pt := Padded(mode, archive);
      && archive <= pt && AllZero(pt[|archive|..])
      && Drain(s, pt, START) == Ok((Progress(None, entries, true), pt[|archive|..]))
      && ParsedAll(s, pt) == Ok(entries)
  {
    var pt := Padded(mode, archive);
    ParseWritten(s, entries, pt[|archive|..]);
    assert pt == archive + pt[|archive|..];
  }

  /** Extracting an honest body is feeding the parser its plaintext, chunk by chunk. */
  lemma ExtractIsFeeding(s: Suite, keys: BodyKeys, pt: Bytes)
    requires Sized(s) && Correct(s) && |pt| <= MAX_PLAINTEXT
    ensures ExtractBody(s, keys, SealedBody(s, keys, pt)).Ok? <==> Extracted(s, Stream.Chunks(pt)).Ok?
    ensures Extracted(s, Stream.Chunks(pt)).Ok? ==>
      ExtractBody(s, keys, SealedBody(s, keys, pt)) == Extracted(s, Stream.Chunks(pt))
    ensures Concat(Stream.Chunks(pt)) == pt
  {
    CorrectOnRuns(s, keys, pt);
    CiphertextFits(s, keys.Aead(s), pt);
    BlockStream.ReadFramed(s, keys.Mac(), Stream.Sealed(s, keys.Aead(s), pt));
    ExtractSealedFrom(s, keys.Aead(s), pt, 0, EMPTY);
    var chunks := Stream.Chunks(pt);
    Stream.ChunksConcat(pt, |chunks|);
    assert chunks[..|chunks|] == chunks;
  }

  lemma ExtractedWhole(s: Suite, entries: seq<Entry>, pt: Bytes, archive: Bytes)
    requires |archive| <= |pt| && AllZero(pt[|archive|..])
    requires Drain(s, pt, START) == Ok((Progress(None, entries, true), pt[|archive|..]))
    ensures Extracted(s, [pt]) == Ok(entries)
  {
    var once: seq<Bytes> := [pt];
    assert [] + pt == pt;
    assert once[1..] == [] && FedAll(s, EMPTY, once) == Fed(s, EMPTY, pt);
  }

  /** The same for whole files and for anyone who can unwrap the data key. */
  lemma SealedFileOpens(s: Suite, h: Header, dk: Bytes, mode: PadMode, entries: seq<Entry>, archive: Bytes,
                        pw: Bytes, hw: Option<Responder>, keyfile: Option<Bytes>)
    requires Sized(s) && Correct(s) && StorableEntries(s, entries)
    requires ArchiveBytes(entries) == Ok(archive) && |archive| <= ISIZE_MAX
    requires SealedHeader(s, h, dk) && KindOf(h.magic) == Some(SealedFile)
    requires UnwrapDataKey(s, h, pw, hw, keyfile) == Ok(dk)
    ensures var pt := Padded(mode, archive); var b := File(s, h, dk, pt);
      && PeekEntries(s, b, pw, hw, keyfile) == Ok(entries)
      && OpenToDir(s, b, pw, hw, keyfile) == if HeadersWithinChunks(entries) then Ok(entries) else Err(SealedOpenFailed)
  {
    hide UnwrapDataKey, UnwrapSealed, ExtractBody, SealedBody, OpenedBody, ParsedAll, HeadersWithinChunks, Padded,
      ArchiveBytes,
      AuthSpan, Parse;
    var pt := Padded(mode, archive);
    ExtractSealed(s, KeysOf(h, dk), mode, entries, archive);
    ParseSerialized(s, h, dk, SealedBody(s, KeysOf(h, dk), pt), Some(SealedFile));
    UnwrapsVerified(s, h, dk, pw, hw, keyfile);
  }

  lemma UnwrapsVerified(s: Suite, h: Header, dk: Bytes, pw: Bytes, hw: Option<Responder>, keyfile: Option<Bytes>)
    requires UnwrapDataKey(s, h, pw, hw, keyfile) == Ok(dk) && VerifyHmac(s, h, dk).Ok?
    ensures UnwrapSealed(s, h, pw, hw, keyfile) == Ok(dk)
  {
  }

  /**
   No archive that holds a file of more than 21844 full parts, about 1.4 GB, can be extracted, whatever the
   names and whatever else it holds; it can be sealed and listed.
   */
  lemma LongFileNeverExtracts(s: Suite, keys: BodyKeys, mode: PadMode, entries: seq<Entry>, archive: Bytes, i: nat)
    requires Sized(s) && Correct(s) && StorableEntries(s, entries)
    requires ArchiveBytes(entries) == Ok(archive) && |archive| <= ISIZE_MAX
    requires i < |entries| && |entries[i].body| > DRIFT_PARTS * MAX_PART_LEN
    ensures ParsedAll(s, Padded(mode, archive)) == Ok(entries)
    ensures ExtractBody(s, keys, SealedBody(s, keys, Padded(mode, archive))).Err?
  {
    hide ArchiveBytes, Padded, SealedBody, ExtractBody, OpenedBody, Storable, HeadersWithinChunks, ParsedAll;
    ExtractSealed(s, keys, mode, entries, archive);
    LongFileStraddles(entries, i);
  }

  /** One that cannot be extracted: 65496 bytes under the name `a`. */
  lemma UnextractableFile(s: Suite, keys: BodyKeys, mode: PadMode, body: Bytes) returns (e: Entry)
    requires Sized(s) && Correct(s) && s.utf8([97]) && |body| == 65496
    ensures e == Entry(FileMeta([97], 0x1A4, 0, 65496), body) && StorableEntries(s, [e]) && ArchiveBytes([e]).Ok?
    ensures var pt := Padded(mode, ArchiveBytes([e]).value);
      ParsedAll(s, pt) == Ok([e]) && ExtractBody(s, keys, SealedBody(s, keys, pt)).Err?
  {
    var path: Bytes := [97];
    e := Entry(FileMeta(path, 0x1A4, 0, 65496), body);
    assert path[1..] == [] && Components(path[1..]) == [[]];
    assert Components(path) == [[97]] by {
      assert [path[0]] + Components(path[1..])[0] == [97];
    }
    assert PathAllowed(path);
    ParseWritten(s, [e], []);
    hide ArchiveBytes, Padded, SealedBody, ExtractBody, OpenedBody, PathAllowed, Components;
    OneFileEnd(e);
    ArchiveLength(s, [e]);
    ExtractSealed(s, keys, mode, [e], ArchiveBytes([e]).value);
  }

  /** The end marker of that archive starts three bytes before the first boundary. */
  lemma OneFileEnd(e: Entry)
    requires |e.meta.path| == 1 && |e.body| == 65496
    ensures HeaderOffset([e], 65533) && !WithinChunk(65533) && ArchiveLen([e]) == 65539
  {
    var one: seq<Entry> := [e];
    assert one[1..] == [];
  }

  // ---------------------------------------------------------------- sealing

  method PushRecord(enc: Stream.StreamEncryptor, record: Result<Bytes>) returns (r: Result<Unit>)
    requires enc.Valid() && !enc.finished
    modifies enc
    ensures !enc.finished
    ensures r.Ok? ==> record.Ok? && enc.Valid() && enc.total == old(enc.total) + record.value
    ensures record.Ok? && |old(enc.total)| + |record.value| <= ISIZE_MAX ==> r.Ok?
    ensures record.Err? ==> r == Err(record.error)
  {
    if record.Err? {
      return Err(record.error);
    }
    r := enc.Push(record.value);
  }

  /** A body in parts of at most 64 KiB. */
  method StreamFileParts(enc: Stream.StreamEncryptor, body: Bytes) returns (r: Result<Unit>)
    requires enc.Valid() && !enc.finished
    modifies enc
    ensures !enc.finished
    ensures r.Ok? ==> enc.Valid() && enc.total == old(enc.total) + Parts(body)
    ensures |old(enc.total)| + |Parts(body)| <= ISIZE_MAX ==> r.Ok?
  {
    var offset := 0;
    ghost var whole := enc.total + Parts(body);
    NothingPushed(enc.total, body);
    hide ToPush, Parts, Record, WriteFilePart, Stream.Consistent;
    while offset < |body|
      invariant 0 <= offset <= |body| && enc.Valid() && !enc.finished
      invariant ToPush(whole, enc.total, body, offset)
    {
      var take := Min(|body| - offset, MAX_PART_LEN);
      var chunk := body[offset..offset + take];
      PartPushed(whole, enc.total, body, offset);
      var pushed := PushRecord(enc, WriteFilePart(chunk));
      if pushed.Err? {
        return pushed;
      }
      offset := offset + take;
    }
    AllPushed(whole, enc.total, body);
    r := Ok(Unit);
  }

  /** With `total` pushed, the parts of the body from `offset` on make it `whole`. */
  ghost predicate ToPush(whole: Bytes, total: Bytes, body: Bytes, offset: nat) {
    offset <= |body| && total + Parts(body[offset..]) == whole
  }

  lemma NothingPushed(total: Bytes, body: Bytes)
    ensures ToPush(total + Parts(body), total, body, 0)
  {
    assert body[0..] == body;
  }

  lemma PartPushed(whole: Bytes, total: Bytes, body: Bytes, offset: nat)
    requires ToPush(whole, total, body, offset) && offset < |body|
    ensures var take := Min(|body| - offset, MAX_PART_LEN); var chunk := body[offset..offset + take];
      && WriteFilePart(chunk) == Ok(Record(FILE_PART, chunk))
      && ToPush(whole, total + Record(FILE_PART, chunk), body, offset + take)
      && |total| + |Record(FILE_PART, chunk)| <= |whole|
  {
    hide Record;
    var rest, take := body[offset..], Min(|body| - offset, MAX_PART_LEN);
    assert rest[..take] == body[offset..offset + take] && rest[take..] == body[offset + take..];
    Assoc(total, Record(FILE_PART, rest[..take]), Parts(rest[take..]));
  }

  lemma AllPushed(whole: Bytes, total: Bytes, body: Bytes)
    requires ToPush(whole, total, body, |body|)
    ensures total == whole
  {
    assert body[|body|..] == [] && total + [] == total;
  }

  /** What has been pushed, followed by the entries still to come. */
  function Followed(total: Bytes, rest: Result<Bytes>): Result<Bytes> {
    match rest
    case Err(e) => Err(e)
    case Ok(b) => Ok(total + b)
  }

  method PushEntries(enc: Stream.StreamEncryptor, entries: seq<Entry>) returns (r: Result<Unit>)
    requires enc.Valid() && !enc.finished && enc.total == []
    modifies enc
    ensures !enc.finished
    ensures r.Ok? ==> enc.Valid() && ArchiveBytes(entries) == Ok(enc.total)
    ensures ArchiveBytes(entries).Ok? && |ArchiveBytes(entries).value| <= ISIZE_MAX ==> r.Ok?
  {
    hide Record, Parts, WriteFileHdr, Followed, EntriesBytes;
    FollowedNothing(EntriesBytes(entries));
    assert entries[0..] == entries;
    for i := 0 to |entries|
      invariant enc.Valid() && !enc.finished
      invariant Followed(enc.total, EntriesBytes(entries[i..])) == EntriesBytes(entries)
    {
      ghost var before := enc.total;
      FollowedStep(before, entries, i);
      var hdr := PushRecord(enc, WriteFileHdr(entries[i].meta));
      if hdr.Err? {
        return hdr;
      }
      var parts := StreamFileParts(enc, entries[i].body);
      if parts.Err? {
        return parts;
      }
    }
    assert entries[|entries|..] == [];
    FollowedByNone(enc.total);
    r := PushRecord(enc, Ok(Record(END, [])));
  }

  lemma FollowedNothing(b: Result<Bytes>)
    ensures Followed([], b) == b
  {
    if b.Ok? {
      assert [] + b.value == b.value;
    }
  }

  lemma FollowedByNone(total: Bytes)
    ensures Followed(total, EntriesBytes([])) == Ok(total)
  {
    assert total + [] == total;
  }

  lemma FollowedStep(total: Bytes, entries: seq<Entry>, i: nat)
    requires i < |entries|
    ensures var hdr, parts := WriteFileHdr(entries[i].meta), Parts(entries[i].body);
      && Followed(total, EntriesBytes(entries[i..])) ==
           (if hdr.Err? then Err(hdr.error) else Followed(total + hdr.value + parts, EntriesBytes(entries[i + 1..])))
      && (hdr.Ok? && Followed(total, EntriesBytes(entries[i..])).Ok? ==>
            |total + hdr.value + parts| <= |Followed(total, EntriesBytes(entries[i..])).value|)
  {
    hide WriteFileHdr, Parts;
    var hdr, parts, rest := WriteFileHdr(entries[i].meta), Parts(entries[i].body), EntriesBytes(entries[i + 1..]);
    assert entries[i..][0] == entries[i] && entries[i..][1..] == entries[i + 1..];
    if hdr.Ok? && rest.Ok? {
      Assoc(total, hdr.value, parts);
      Assoc(total, hdr.value + parts, rest.value);
    }
  }

  // ---------------------------------------------------------------- the container

  /** What a saved file keeps when only its header is edited. */
  ghost predicate SameArchive(a: Ring, b: Ring) {
    && a.dataKey == b.dataKey
    && a.header == b.header.(stanzas := a.header.stanzas, costs := a.header.costs)
  }

  ghost predicate HeaderOnly(step: Step) {
    step.DoEnrollKeyfile? || step.DoEnrollYubiKey? || step.DoRemove? || step.DoAddFido2? || step.DoSetTpm?
        || step.DoChangeKdf?
  }

  /** A header that can be written, whatever its stanzas: also one that was parsed rather than built here. */
  ghost predicate Writable(k: Ring) {
    Encodable(k.header) && |k.dataKey| == DATA_KEY_LEN && |k.owners| == |k.header.stanzas|
  }

  lemma {:induction false} WithoutIsSmaller(a: seq<Stanza>, o: seq<Owner>, kind: byte)
    requires |a| == |o| && StorableStanzas(a)
    ensures StorableStanzas(Without(a, o, kind).0)
  {
    if a != [] {
      WithoutIsSmaller(a[1..], o[1..], kind);
    }
  }

  lemma EnrollWritable(s: Suite, k: Ring, composite: Result<Stanza>, secret: Secret, code: Bytes, nonce: Option<Bytes>)
    requires Sized(s) && Writable(k) && Drawn(nonce, WRAP_NONCE_LEN)
    requires composite.Ok? ==> |composite.value.data| <= MAX_STANZA_DATA_LEN
    ensures Writable(Enroll(s, k, composite, secret, code, nonce).0)
  {
    if Enroll(s, k, composite, secret, code, nonce).1.Ok? {
      WrapPasswordWraps(s, k.dataKey, code, k.Params(), nonce);
    }
  }

  lemma HeaderStepWritable(s: Suite, k: Ring, step: Step)
    requires Sized(s) && Writable(k) && step.Typed(s) && HeaderOnly(step)
    ensures Writable(Apply(s, k, step).0)
  {
    hide WrapPassword, WrapYubiKey, WrapKeyfile, Enroll, AddFido2, SetTpm, ChangeKdf, Wraps;
    var p := k.Params();
    match step
    case DoEnrollYubiKey(pw, r, c, code, n1, n2) =>
      if WrapYubiKey(s, k.dataKey, pw, r, c, p, n1).Ok? {
        WrapYubiKeyWraps(s, k.dataKey, pw, r, c, p, n1);
      }
      EnrollWritable(s, k, WrapYubiKey(s, k.dataKey, pw, r, c, p, n1), PasswordAndYubiKey(pw, r), code, n2);
    case DoEnrollKeyfile(pw, f, code, n1, n2) =>
      if WrapKeyfile(s, k.dataKey, pw, f, p, n1).Ok? {
        WrapKeyfileWraps(s, k.dataKey, pw, f, p, n1);
      }
      EnrollWritable(s, k, WrapKeyfile(s, k.dataKey, pw, f, p, n1), PasswordAndKeyfile(pw, f), code, n2);
    case DoAddFido2(prf, x, n) => Fido2Writable(s, k, prf, x, n);
    case DoSetTpm(ikm, x, n) => TpmWritable(s, k, ikm, x, n);
    case DoRemove(kind) => WithoutIsSmaller(k.header.stanzas, k.owners, kind);
    case DoChangeKdf(pw, costs, n) => KdfWritable(s, k, pw, costs, n);
  }

  lemma Fido2Writable(s: Suite, k: Ring, prf: Bytes, x: Fido2Extra, n: Option<Bytes>)
    requires Sized(s) && Writable(k) && x.Typed(s) && Drawn(n, WRAP_NONCE_LEN)
    ensures Writable(AddFido2(s, k, prf, x, n).0)
  {
    if WrapFido2(s, k.dataKey, prf, k.header.vaultId, x, n).Ok? {
      WrapFido2Wraps(s, k.dataKey, prf, k.header.salt, k.header.vaultId, k.header.costs, x, n);
    }
    hide WrapFido2;
  }

  lemma TpmWritable(s: Suite, k: Ring, ikm: Bytes, x: TpmExtra, n: Option<Bytes>)
    requires Sized(s) && Writable(k) && Drawn(n, WRAP_NONCE_LEN)
    ensures Writable(SetTpm(s, k, ikm, x, n).0)
  {
    if WrapTpm(s, k.dataKey, ikm, k.header.vaultId, x, n).Ok? {
      WrapTpmWraps(s, k.dataKey, ikm, k.header.salt, k.header.vaultId, k.header.costs, x, n);
    }
    hide WrapTpm;
  }

  lemma KdfWritable(s: Suite, k: Ring, pw: Bytes, costs: Costs, n: Option<Bytes>)
    requires Sized(s) && Writable(k) && Drawn(n, WRAP_NONCE_LEN)
    ensures Writable(ChangeKdf(s, k, pw, costs, n).0)
  {
    var p := k.Params().(costs := costs);
    if WrapPassword(s, k.dataKey, pw, p, n).Ok? {
      WrapPasswordWraps(s, k.dataKey, pw, p, n);
    }
    hide WrapPassword;
  }

  lemma HeaderStepKeepsArchive(s: Suite, k: Ring, step: Step)
    requires |k.owners| == |k.header.stanzas| && HeaderOnly(step)
    ensures SameArchive(Apply(s, k, step).0, k)
  {
    hide WrapPassword, WrapYubiKey, WrapKeyfile, WrapFido2, WrapTpm;
  }

  /** Header-only edits in order; failed ones change nothing. */
  ghost function Edited(s: Suite, k: Ring, steps: seq<Step>): Ring
    requires Sized(s) && Writable(k) && forall i :: 0 <= i < |steps| ==> steps[i].Typed(s) && HeaderOnly(steps[i])
    decreases |steps|
  {
    if steps == [] then k
    else
      HeaderStepWritable(s, k, steps[0]);
      Edited(s, Apply(s, k, steps[0]).0, steps[1..])
  }

  lemma {:induction false} EditsKeepArchive(s: Suite, k: Ring, steps: seq<Step>)
    requires Sized(s) && Writable(k) && forall i :: 0 <= i < |steps| ==> steps[i].Typed(s) && HeaderOnly(steps[i])
    ensures Writable(Edited(s, k, steps)) && SameArchive(Edited(s, k, steps), k)
    decreases |steps|
  {
    if steps != [] {
      HeaderStepWritable(s, k, steps[0]);
      HeaderStepKeepsArchive(s, k, steps[0]);
      hide Apply;
      EditsKeepArchive(s, Apply(s, k, steps[0]).0, steps[1..]);
    }
  }

  /** The container's header in front of another file's body. */
  function SavedOver(s: Suite, h: Header, dataKey: Bytes, original: Bytes): Result<Bytes> {
    match Parse(s, original, Some(SealedFile))
    case Err(e) => Err(e)
    case Ok(prior) =>
      if OnDiskLen(prior) > |original| then Err(BodyMalformed)
      else Ok(Serialize(Seal(s, h, dataKey)) + original[OnDiskLen(prior)..])
  }

  /**
   A container opened from `b`, put through any run of header-only edits and saved over `b`, gives a file
   with the very same body region, which still decrypts, under the unchanged data key and seeds, to
   whatever it decrypted to.
   */
  lemma EditsPreserveBody(s: Suite, k: Ring, b: Bytes, steps: seq<Step>)
    requires Sized(s) && |k.dataKey| == DATA_KEY_LEN && |k.owners| == |k.header.stanzas|
    requires Parse(s, b, Some(SealedFile)) == Ok(k.header)
    requires forall i :: 0 <= i < |steps| ==> steps[i].Typed(s) && HeaderOnly(steps[i])
    ensures Writable(k) && OnDiskLen(k.header) <= |b|
    ensures var k' := Edited(s, k, steps); var h := Seal(s, k'.header, k.dataKey); var saved := SavedOver(s, k'.header,
      k'.dataKey, b);
      && saved.Ok? && Parse(s, saved.value, Some(SealedFile)) == Ok(h) && OnDiskLen(h) <= |saved.value|
      && saved.value[OnDiskLen(h)..] == b[OnDiskLen(k.header)..]
      && KeysOf(h, k.dataKey) == KeysOf(k.header, k.dataKey)
      && OpenedBody(s, KeysOf(h, k.dataKey), saved.value[OnDiskLen(h)..])
         == OpenedBody(s, KeysOf(k.header, k.dataKey), b[OnDiskLen(k.header)..])
      && (Correct(s) ==> VerifyHmac(s, h, k.dataKey) == Ok(Unit))
  {
    ParsedEncodable(s, b, Some(SealedFile));
    ParsedSerializes(s, b, Some(SealedFile));
    EditsKeepArchive(s, k, steps);
    ParseSerialized(s, Edited(s, k, steps).header, k.dataKey, b[OnDiskLen(k.header)..], Some(SealedFile));
  }

  /**
   Saving over a file the container was not opened from: under an ideal MAC the result opens exactly when
   that file's body is the one written under the container's own key and seeds.
   */
  lemma SavedOverOpensExactly(s: Suite, k: Ring, pt: Bytes, original: Bytes)
    requires Sized(s) && Writable(k) && KindOf(k.header.magic) == Some(SealedFile) && |pt| <= MAX_PLAINTEXT
    requires Parse(s, original, Some(SealedFile)).Ok? && IdealBody(s, KeysOf(k.header, k.dataKey), pt)
    requires VerifyHmac(s, Seal(s, k.header, k.dataKey), k.dataKey).Ok?
    ensures var prior := Parse(s, original, Some(SealedFile)).value;
      && OnDiskLen(prior) <= |original| && SavedOver(s, k.header, k.dataKey, original).Ok?
      && (OpenUnder(s, SavedOver(s, k.header, k.dataKey, original).value, Some(SealedFile), k.dataKey).Ok?
          <==> original[OnDiskLen(prior)..] == SealedBody(s, KeysOf(k.header, k.dataKey), pt))
  {
    ParsedSerializes(s, original, Some(SealedFile));
    var prior := Parse(s, original, Some(SealedFile)).value;
    var body := original[OnDiskLen(prior)..];
    ParseSerialized(s, k.header, k.dataKey, body, Some(SealedFile));
    OpenAcceptsExactly(s, KeysOf(k.header, k.dataKey), pt, body);
  }

  class SealedContainer {
    const suite: Suite
    var header: Header
    var dataKey: Bytes
    var padMode: PadMode
    ghost var owners: seq<Owner>

    ghost function View(): Ring
      reads this
    {
      Ring(header, dataKey, owners)
    }

    ghost predicate Valid()
      reads this
    {
      Sized(suite) && Writable(View()) && KindOf(header.magic) == Some(SealedFile)
    }

    constructor (suite: Suite, ring: Ring, padMode: PadMode)
      ensures this.suite == suite && View() == ring && this.padMode == padMode
    {
      this.suite, this.padMode := suite, padMode;
      header, dataKey, owners := ring.header, ring.dataKey, ring.owners;
    }

    /** Unlock a file; `owners` says, for the proofs, who owns its stanzas. */
    static method OpenWith(suite: Suite, b: Bytes, pw: Bytes, hw: Option<Responder>, keyfile: Option<Bytes>,
        owners: seq<Owner>)
      returns (r: Result<SealedContainer>)
      requires Sized(suite)
      requires Parse(suite, b, Some(SealedFile)).Ok? ==> |owners| == |Parse(suite, b, Some(SealedFile)).value.stanzas|
      ensures match Parse(suite, b, Some(SealedFile))
        case Err(e) => r == Err(e)
        case Ok(h) =>
          match UnwrapSealed(suite, h, pw, hw, keyfile)
          case Err(e) => r == Err(e)
          case Ok(dk) => r.Ok? && fresh(r.value) && r.value.View() == Ring(h, dk, owners) && r.value.padMode == Padme
                         && r.value.suite == suite && (|dk| == DATA_KEY_LEN ==> r.value.Valid())
    {
      var parsed := Parse(suite, b, Some(SealedFile));
      if parsed.Err? {
        return Err(parsed.error);
      }
      var dk := UnlockKey(suite, parsed.value, pw, hw, keyfile);
      if dk.Err? {
        return Err(dk.error);
      }
      ParsedEncodable(suite, b, Some(SealedFile));
      var c := new SealedContainer(suite, Ring(parsed.value, dk.value, owners), Padme);
      r := Ok(c);
    }

    method EnrollKeyfile2fa(pw: Bytes, keyfile: Bytes, code: Bytes, rng: Rng)
      returns (r: Result<Unit>, ghost n1: Option<Bytes>, ghost n2: Option<Bytes>)
      requires Valid()
      modifies this`header, this`owners, rng
      ensures r.Ok? ==> rng.log == old(rng.log) + [n1, n2]
      ensures Valid() && Drawn(n1, WRAP_NONCE_LEN) && Drawn(n2, WRAP_NONCE_LEN)
      ensures (View(), r) == EnrollKeyfile(suite, old(View()), pw, keyfile, code, n1, n2)
    {
      var d1 := rng.Draw(WRAP_NONCE_LEN);
      var d2 := rng.Draw(WRAP_NONCE_LEN);
      n1, n2 := d1, d2;
      HeaderStepWritable(suite, View(), DoEnrollKeyfile(pw, keyfile, code, n1, n2));
      var p := ParamsOf(header);
      var composite := WrapKeyfile(suite, dataKey, pw, keyfile, p, d1);
      if composite.Err? {
        return Err(composite.error), n1, n2;
      }
      var recovery := WrapPassword(suite, dataKey, code, p, d2);
      if recovery.Err? {
        return Err(recovery.error), n1, n2;
      }
      owners := [Owner(PasswordAndKeyfile(pw, keyfile), header.costs), Owner(Password(code), header.costs)];
      header := header.(stanzas := [composite.value, recovery.value]);
      r := Ok(Unit);
    }

    method EnrollYubiKey2fa(pw: Bytes, response: Bytes, challenge: Bytes, code: Bytes, rng: Rng)
      returns (r: Result<Unit>, ghost n1: Option<Bytes>, ghost n2: Option<Bytes>)
      requires Valid() && |challenge| == CHALLENGE_LEN
      modifies this`header, this`owners, rng
      ensures r.Ok? ==> rng.log == old(rng.log) + [n1, n2]
      ensures Valid() && Drawn(n1, WRAP_NONCE_LEN) && Drawn(n2, WRAP_NONCE_LEN)
      ensures (View(), r) == EnrollYubiKey(suite, old(View()), pw, response, challenge, code, n1, n2)
    {
      var d1 := rng.Draw(WRAP_NONCE_LEN);
      var d2 := rng.Draw(WRAP_NONCE_LEN);
      n1, n2 := d1, d2;
      HeaderStepWritable(suite, View(), DoEnrollYubiKey(pw, response, challenge, code, n1, n2));
      var p := ParamsOf(header);
      var composite := WrapYubiKey(suite, dataKey, pw, response, challenge, p, d1);
      if composite.Err? {
        return Err(composite.error), n1, n2;
      }
      var recovery := WrapPassword(suite, dataKey, code, p, d2);
      if recovery.Err? {
        return Err(recovery.error), n1, n2;
      }
      owners := [Owner(PasswordAndYubiKey(pw, response), header.costs), Owner(Password(code), header.costs)];
      header := header.(stanzas := [composite.value, recovery.value]);
      r := Ok(Unit);
    }

    method RemoveStanzaType(kind: byte) returns (r: Result<Unit>)
      requires Valid()
      modifies this`header, this`owners
      ensures Valid()
      ensures (View(), r) == RemoveType(old(View()), kind)
    {
      if kind == PASSWORD {
        return Err(Hardware);
      }
      HeaderStepWritable(suite, View(), DoRemove(kind));
      ghost var kept := Without(header.stanzas, owners, kind);
      var before := |header.stanzas|;
      var stanzas := Retain(header.stanzas, kind);
      RetainIsWithout(header.stanzas, owners, kind);
      if |stanzas| == before {
        WithoutSameLength(header.stanzas, owners, kind);
        return Err(Hardware);
      }
      header := header.(stanzas := stanzas);
      owners := kept.1;
      r := Ok(Unit);
    }

    method AddFido2Stanza(prfOutput: Bytes, extra: Fido2Extra, rng: Rng) returns (r: Result<Unit>,
        ghost nonce: Option<Bytes>)
      requires Valid() && extra.Typed(suite)
      modifies this`header, this`owners, rng
      ensures r.Ok? ==> rng.log == old(rng.log) + [nonce]
      ensures Valid() && Drawn(nonce, WRAP_NONCE_LEN)
      ensures (View(), r) == AddFido2(suite, old(View()), prfOutput, extra, nonce)
    {
      nonce := None;
      if |header.stanzas| >= MAX_STANZAS {
        return Err(Hardware), nonce;
      }
      if Has(header.stanzas, FIDO2) {
        return Err(Hardware), nonce;
      }
      var n := rng.Draw(WRAP_NONCE_LEN);
      nonce := n;
      HeaderStepWritable(suite, View(), DoAddFido2(prfOutput, extra, nonce));
      var st := WrapFido2(suite, dataKey, prfOutput, header.vaultId, extra, n);
      if st.Err? {
        return Err(st.error), nonce;
      }
      owners := owners + [Owner(Prf(prfOutput), header.costs)];
      header := header.(stanzas := header.stanzas + [st.value]);
      r := Ok(Unit);
    }

    method SetTpmStanza(tpmIkm: Bytes, extra: TpmExtra, rng: Rng) returns (r: Result<Unit>, ghost nonce: Option<Bytes>)
      requires Valid()
      modifies this`header, this`owners, rng
      ensures r.Ok? ==> rng.log == old(rng.log) + [nonce]
      ensures Valid() && Drawn(nonce, WRAP_NONCE_LEN)
      ensures (View(), r) == SetTpm(suite, old(View()), tpmIkm, extra, nonce)
    {
      var n := rng.Draw(WRAP_NONCE_LEN);
      nonce := n;
      HeaderStepWritable(suite, View(), DoSetTpm(tpmIkm, extra, nonce));
      var st := WrapTpm(suite, dataKey, tpmIkm, header.vaultId, extra, n);
      if st.Err? {
        return Err(st.error), nonce;
      }
      var at := Find(header.stanzas, TPM);
      if at.Some? {
        owners := owners[at.value := Owner(TpmSecret(tpmIkm), header.costs)];
        header := header.(stanzas := header.stanzas[at.value := st.value]);
      } else {
        if |header.stanzas| >= MAX_STANZAS {
          return Err(Hardware), nonce;
        }
        owners := owners + [Owner(TpmSecret(tpmIkm), header.costs)];
        header := header.(stanzas := header.stanzas + [st.value]);
      }
      r := Ok(Unit);
    }

    method ChangeKdf(pw: Bytes, costs: Costs, rng: Rng) returns (r: Result<Unit>, ghost nonce: Option<Bytes>)
      requires Valid()
      modifies this`header, this`owners, rng
      ensures r.Ok? ==> rng.log == old(rng.log) + [nonce]
      ensures Valid() && Drawn(nonce, WRAP_NONCE_LEN)
      ensures (View(), r) == Keyring.ChangeKdf(suite, old(View()), pw, costs, nonce)
    {
      nonce := None;
      var inRange := ValidateKdfParams(costs);
      if inRange.Err? {
        return Err(inRange.error), nonce;
      }
      var floor := RejectKdfBelowFloor(costs);
      if floor.Err? {
        return Err(floor.error), nonce;
      }
      var n := rng.Draw(WRAP_NONCE_LEN);
      nonce := n;
      HeaderStepWritable(suite, View(), DoChangeKdf(pw, costs, nonce));
      var st := WrapPassword(suite, dataKey, pw, ParamsOf(header).(costs := costs), n);
      if st.Err? {
        return Err(st.error), nonce;
      }
      var stanzas := ReplaceFirstPassword(header.stanzas, st.value);
      ghost var at := Find(header.stanzas, PASSWORD);
      owners := if at.None? then owners else owners[at.value := Owner(Password(pw), costs)];
      header := header.(stanzas := stanzas, costs := costs);
      r := Ok(Unit);
    }

    method SavePreservingBody(original: Bytes) returns (r: Result<Bytes>)
      requires Valid()
      ensures r == SavedOver(suite, header, dataKey, original)
    {
      var parsed := Parse(suite, original, Some(SealedFile));
      if parsed.Err? {
        return Err(parsed.error);
      }
      var bodyStart := OnDiskLen(parsed.value);
      if bodyStart > |original| {
        return Err(BodyMalformed);
      }
      var sealed := Seal(suite, header, dataKey);
      var out := Serialize(sealed);
      out := out + original[bodyStart..];
      r := Ok(out);
    }

    /** Seal files under fresh seeds drawn into a copy of the header; the container itself keeps its own. */
    method SealEntries(entries: seq<Entry>, rng: Rng)
      returns (r: Result<Bytes>, ghost seed: Bytes, ghost prefix: Bytes)
      requires Valid()
      modifies rng
      ensures r.Ok? ==> rng.log == old(rng.log) + [Some(seed), Some(prefix)]
      ensures r.Ok? ==>
        && |seed| == 32 && |prefix| == 16 && ArchiveBytes(entries).Ok?
        && var h := Seal(suite, header.(masterSeed := seed, noncePrefix := prefix), dataKey);
        && SealedHeader(suite, h, dataKey) && KindOf(h.magic) == Some(SealedFile)
        && r.value == File(suite, h, dataKey, Padded(padMode, ArchiveBytes(entries).value))
      ensures ArchiveBytes(entries).Ok? && |ArchiveBytes(entries).value| <= ISIZE_MAX ==> r.Ok? || r == Err(Crypto)
    {
      hide ArchiveBytes, AuthSpan;
      seed, prefix := [], [];
      var masterSeed := rng.Draw(32);
      if masterSeed.None? {
        return Err(Crypto), seed, prefix;
      }
      var noncePrefix := rng.Draw(16);
      if noncePrefix.None? {
        return Err(Crypto), seed, prefix;
      }
      seed, prefix := masterSeed.value, noncePrefix.value;
      var h := header.(masterSeed := masterSeed.value, noncePrefix := noncePrefix.value);
      var keys := KeysOf(h, dataKey);
      var enc := new Stream.StreamEncryptor(suite, dataKey, noncePrefix.value);
      var pushed := PushEntries(enc, entries);
      if pushed.Err? {
        return Err(pushed.error), seed, prefix;
      }
      ghost var archive := enc.total;
      var target := padMode.PaddedLen(enc.plaintextLen);
      if target > enc.plaintextLen {
        PaddedWithinWord(padMode, archive);
        var zeros := enc.Push(Zeros(target - enc.plaintextLen));
        if zeros.Err? {
          return Err(zeros.error), seed, prefix;
        }
      } else {
        assert archive + Zeros(0) == archive;
      }
      assert enc.total == Padded(padMode, archive);
      var ct := enc.Finish();
      match ct
      case Err(e) => return Err(e), seed, prefix;
      case Ok(ciphertext) =>
        var body := BlockStream.Frame(suite, keys.Mac(), ciphertext);
        SealIsStable(suite, h, dataKey);
        var out := Serialize(Seal(suite, h, dataKey));
        out := out + body;
        r := Ok(out);
    }
  }

  /** Padding cannot exhaust the chunk counter. */
  lemma PaddedWithinWord(mode: PadMode, pt: Bytes)
    ensures |pt| <= ISIZE_MAX ==> Stream.LastIndex(Padded(mode, pt)) <= U64_MAX
  {
    if |pt| <= ISIZE_MAX {
      PaddedFits(mode, |pt|);
    }
  }
}
