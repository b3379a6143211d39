/**
 HmacBlockStream framing: blocks of `tag | size | payload`, each tag under its own key and over its
 own index, ended by an authenticated empty block (format/block_stream.rs).
 */
module BlockStream {
  import opened Bytes
  import opened Primitives
  import opened Cursors

  const BLOCK_SIZE := 0x10_0000
  const FRAME_OVERHEAD := HMAC_LEN + 4
  const BLOCK_HMAC_INFO: Bytes :=
    [118, 97, 117, 108, 116, 45, 98, 108, 111, 99, 107, 45, 104, 109, 97, 99, 45, 118, 49]

  /** The data key and master seed a stream is written under. */
  datatype Keys = Keys(dataKey: Bytes, masterSeed: Bytes)

  function BlockKey(s: Suite, k: Keys, index: nat): Bytes {
    s.hkdf(k.dataKey, LE(index, 8) + k.masterSeed, BLOCK_HMAC_INFO)
  }

  /** What a block's tag covers. */
  function MacInput(index: nat, payload: Bytes): Bytes {
    LE(index, 8) + LE(|payload|, 4) + payload
  }

  lemma MacInputInjective(i1: nat, p1: Bytes, i2: nat, p2: Bytes)
    requires i1 <= U64_MAX && i2 <= U64_MAX
    requires MacInput(i1, p1) == MacInput(i2, p2)
    ensures i1 == i2 && p1 == p2
  {
    Pow256Widths();
    LERoundTrip(i1, 8);
    LERoundTrip(i2, 8);
    assert MacInput(i1, p1)[..8] == LE(i1, 8) && MacInput(i2, p2)[..8] == LE(i2, 8);
    assert MacInput(i1, p1)[12..] == p1 && MacInput(i2, p2)[12..] == p2;
  }

  function BlockTag(s: Suite, k: Keys, index: nat, payload: Bytes): Bytes {
    s.hmac(BlockKey(s, k, index), MacInput(index, payload))
  }

  function Block(s: Suite, k: Keys, index: nat, payload: Bytes): Bytes {
    BlockTag(s, k, index, payload) + LE(|payload|, 4) + payload
  }

  // ---------------------------------------------------------------- writing

  /** The payloads of a stream: the ciphertext cut every `blockSize` bytes, then the empty terminator. */
  function Payloads(ct: Bytes, blockSize: nat): (r: seq<Bytes>)
    requires 0 < blockSize
    ensures |r| >= 1
    decreases |ct|
  {
    if ct == [] then [[]]
    else [ct[..Min(|ct|, blockSize)]] + Payloads(ct[Min(|ct|, blockSize)..], blockSize)
  }

  /** Payload lists a writer can produce: non-empty bounded blocks, then one empty one. */
  ghost predicate WellFormed(payloads: seq<Bytes>) {
    && |payloads| >= 1
    && (forall i :: 0 <= i < |payloads| ==> |payloads[i]| <= BLOCK_SIZE && (payloads[i] == [] <==> i == |payloads| - 1))
  }

  lemma {:induction false} PayloadsWellFormed(ct: Bytes, blockSize: nat)
    requires 0 < blockSize <= BLOCK_SIZE
    ensures WellFormed(Payloads(ct, blockSize))
    ensures Concat(Payloads(ct, blockSize)) == ct
    ensures |Payloads(ct, blockSize)| <= |ct| + 1
    decreases |ct|
  {
    if ct != [] {
      var n := Min(|ct|, blockSize);
      PayloadsWellFormed(ct[n..], blockSize);
      assert Payloads(ct, blockSize)[1..] == Payloads(ct[n..], blockSize);
      assert ct == ct[..n] + ct[n..];
    }
  }

  /** Blocks `i` to the last on disk. */
  function BlocksFrom(s: Suite, k: Keys, payloads: seq<Bytes>, i: nat): Bytes
    requires i <= |payloads|
    decreases |payloads| - i
  {
    if i == |payloads| then [] else Block(s, k, i, payloads[i]) + BlocksFrom(s, k, payloads, i + 1)
  }

  /** The framed stream. */
  function Framed(s: Suite, k: Keys, ct: Bytes): Bytes {
    BlocksFrom(s, k, Payloads(ct, BLOCK_SIZE), 0)
  }

  /** The blocks that cutting `rest` gives when the next index is `index`. */
  ghost function FramedRest(s: Suite, k: Keys, rest: Bytes, blockSize: nat, index: nat): Bytes
    requires 0 < blockSize
    decreases |rest|
  {
    if rest == [] then Block(s, k, index, [])
    else Block(s, k, index, rest[..Min(|rest|, blockSize)])
         + FramedRest(s, k, rest[Min(|rest|, blockSize)..], blockSize, index + 1)
  }

  lemma {:induction false} FramedRestIsBlocks(s: Suite, k: Keys, done: seq<Bytes>, rest: Bytes, blockSize: nat)
    requires 0 < blockSize
    ensures FramedRest(s, k, rest, blockSize, |done|) == BlocksFrom(s, k, done + Payloads(rest, blockSize), |done|)
    decreases |rest|
  {
    hide Block;
    var all := done + Payloads(rest, blockSize);
    if rest == [] {
      assert BlocksFrom(s, k, all, |all|) == [];
      assert all[|done|] == [];
      assert Block(s, k, |done|, []) + [] == Block(s, k, |done|, []);
    } else {
      var n := Min(|rest|, blockSize);
      var first, after := rest[..n], Payloads(rest[n..], blockSize);
      FramedRestIsBlocks(s, k, done + [first], rest[n..], blockSize);
      assert Payloads(rest, blockSize) == [first] + after;
      assert done + [first] + after == all;
      assert BlocksFrom(s, k, all, |done|) == Block(s, k, |done|, first) + BlocksFrom(s, k, all, |done| + 1);
    }
  }

  method WriteBlock(s: Suite, out: Bytes, k: Keys, index: nat, payload: Bytes) returns (r: Bytes)
    ensures r == out + Block(s, k, index, payload)
  {
    var key := BlockKey(s, k, index);
    var size := LE(|payload|, 4);
    var tag := s.hmac(key, LE(index, 8) + size + payload);
    r := out + tag;
    r := r + size;
    r := r + payload;
  }

  method FrameInner(s: Suite, k: Keys, ciphertext: Bytes, blockSize: nat) returns (out: Bytes)
    requires 0 < blockSize <= BLOCK_SIZE
    ensures out == BlocksFrom(s, k, Payloads(ciphertext, blockSize), 0)
  {
    out := [];
    var index, rest := 0, ciphertext;
    FramedRestIsBlocks(s, k, [], ciphertext, blockSize);
    assert [] + Payloads(ciphertext, blockSize) == Payloads(ciphertext, blockSize);
    while rest != []
      invariant out + FramedRest(s, k, rest, blockSize, index) == FramedRest(s, k, ciphertext, blockSize, 0)
      decreases |rest|
    {
      var n := Min(|rest|, blockSize);
      Assoc(out, Block(s, k, index, rest[..n]), FramedRest(s, k, rest[n..], blockSize, index + 1));
      out := WriteBlock(s, out, k, index, rest[..n]);
      rest, index := rest[n..], index + 1;
    }
    out := WriteBlock(s, out, k, index, []);
  }

  method Frame(s: Suite, k: Keys, ciphertext: Bytes) returns (out: Bytes)
    ensures out == Framed(s, k, ciphertext)
  {
    out := FrameInner(s, k, ciphertext, BLOCK_SIZE);
  }

  // ---------------------------------------------------------------- reading

  /** One block cut off the front of a stream, before anything is checked about its tag. */
  datatype RawBlock = RawBlock(tag: Bytes, payload: Bytes, rest: Bytes)

  function SplitBlock(bytes: Bytes): (r: Result<RawBlock>)
    ensures r.Ok? ==> |r.value.rest| < |bytes|
  {
    if |bytes| < FRAME_OVERHEAD then Err(BodyMalformed)
    else
      var size := FromLE(bytes[HMAC_LEN..FRAME_OVERHEAD]);
      var end := FRAME_OVERHEAD + size;
      if size > BLOCK_SIZE || end > |bytes| then Err(BodyMalformed)
      else Ok(RawBlock(bytes[..HMAC_LEN], bytes[FRAME_OVERHEAD..end], bytes[end..]))
  }

  /** What reading `bytes` gives when the next block index is `index`. */
  function ReadFrom(s: Suite, k: Keys, bytes: Bytes, index: nat): Result<Bytes>
    decreases |bytes|
  {
    match SplitBlock(bytes)
    case Err(e) => Err(e)
    case Ok(b) =>
      if !s.hmacVerify(BlockKey(s, k, index), MacInput(index, b.payload), b.tag) then Err(BodyAuth)
      else if b.payload == [] then (if b.rest == [] then Ok([]) else Err(BodyMalformed))
      else if index >= U64_MAX then Err(BodyMalformed)
      else Before(b.payload, ReadFrom(s, k, b.rest, index + 1))
  }

  function Before(payload: Bytes, rest: Result<Bytes>): Result<Bytes> {
    match rest
    case Ok(v) => Ok(payload + v)
    case Err(e) => Err(e)
  }

  lemma BeforeLaws(a: Bytes, b: Bytes, rest: Result<Bytes>)
    ensures Before([], rest) == rest
    ensures Before(a, Before(b, rest)) == Before(a + b, rest)
    ensures Before(a, Ok([])) == Ok(a)
  {
    match rest
    case Ok(v) => assert [] + v == v && a + (b + v) == (a + b) + v && a + [] == a;
    case Err(_) => assert a + [] == a;
  }

  /** The structural half of one pass of the read loop: tag, size, payload, each bounds-checked. */
  method TakeBlock(cur: Cursor) returns (r: Result<(Bytes, Bytes)>)
    requires cur.Valid()
    modifies cur
    ensures cur.Valid()
    ensures match SplitBlock(old(cur.Rest()))
      case Err(e) => r == Err(e)
      case Ok(b) => r == Ok((b.tag, b.payload)) && cur.Rest() == b.rest
  {
    ghost var bytes := cur.Rest();
    var tag := cur.Take(HMAC_LEN);
    if tag.Err? {
      return Err(BodyMalformed);
    }
    var size := cur.ReadU32LE();
    if size.Err? {
      return Err(BodyMalformed);
    }
    assert bytes[HMAC_LEN..][..4] == bytes[HMAC_LEN..FRAME_OVERHEAD];
    assert bytes[HMAC_LEN..][4..] == bytes[FRAME_OVERHEAD..];
    if size.value > BLOCK_SIZE {
      return Err(BodyMalformed);
    }
    var payload := cur.Take(size.value);
    if payload.Err? {
      return Err(BodyMalformed);
    }
    assert bytes[FRAME_OVERHEAD..][..size.value] == bytes[FRAME_OVERHEAD..FRAME_OVERHEAD + size.value];
    assert bytes[FRAME_OVERHEAD..][size.value..] == bytes[FRAME_OVERHEAD + size.value..];
    r := Ok((tag.value, payload.value));
  }

  /** Each pass consumes at least the 36 bytes of tag and size, so the loop ends on every input. */
  method Read(s: Suite, k: Keys, bytes: Bytes) returns (r: Result<Bytes>)
    ensures r == ReadFrom(s, k, bytes, 0)
  {
    var cur := new Cursor(bytes);
    var out: Bytes, index: nat := [], 0;
    BeforeLaws([], [], ReadFrom(s, k, bytes, 0));
    assert bytes[0..] == bytes;
    while true
      invariant fresh(cur) && cur.Valid() && index <= U64_MAX
      invariant ReadFrom(s, k, bytes, 0) == Before(out, ReadFrom(s, k, cur.Rest(), index))
      decreases |cur.Rest()|
    {
      ghost var rest := cur.Rest();
      var block := TakeBlock(cur);
      if block.Err? {
        return Err(block.error);
      }
      var (tag, payload) := block.value;
      if !s.hmacVerify(BlockKey(s, k, index), MacInput(index, payload), tag) {
        return Err(BodyAuth);
      }
      if |payload| == 0 {
        if cur.Remaining() != 0 {
          return Err(BodyMalformed);
        }
        BeforeLaws(out, [], Ok([]));
        return Ok(out);
      }
      BeforeLaws(out, payload, ReadFrom(s, k, cur.Rest(), index + 1));
      out := out + payload;
      if index == U64_MAX {
        return Err(BodyMalformed);
      }
      index := index + 1;
    }
  }

  // ---------------------------------------------------------------- one block

  /** Where the parts of a written block lie. */
  lemma BlockSlices(s: Suite, k: Keys, index: nat, payload: Bytes, rest: Bytes)
    requires Sized(s)
    ensures |Block(s, k, index, payload)| == FRAME_OVERHEAD + |payload|
    ensures var b, end := Block(s, k, index, payload) + rest, FRAME_OVERHEAD + |payload|;
      && b[..HMAC_LEN] == BlockTag(s, k, index, payload) && b[HMAC_LEN..FRAME_OVERHEAD] == LE(|payload|, 4)
      && b[FRAME_OVERHEAD..end] == payload && b[end..] == rest
  {
    hide LE, MacInput;
  }

  /** A block at the front of a stream is cut off again as it was written. */
  lemma SplitWrittenBlock(s: Suite, k: Keys, index: nat, payload: Bytes, rest: Bytes)
    requires Sized(s) && |payload| <= BLOCK_SIZE
    ensures |Block(s, k, index, payload)| == FRAME_OVERHEAD + |payload|
    ensures SplitBlock(Block(s, k, index, payload) + rest)
      == Ok(RawBlock(BlockTag(s, k, index, payload), payload, rest))
  {
    BlockSlices(s, k, index, payload, rest);
    Pow256Widths();
    LERoundTrip(|payload|, 4);
  }

  /** Whatever is cut off is exactly what was there: nothing is skipped or reinterpreted. */
  lemma SplitIsLossless(bytes: Bytes)
    requires SplitBlock(bytes).Ok?
    ensures var b := SplitBlock(bytes).value;
      bytes == b.tag + LE(|b.payload|, 4) + b.payload + b.rest
  {
    var size := bytes[HMAC_LEN..FRAME_OVERHEAD];
    FromLERoundTrip(size);
    hide LE, FromLE, Pow256;
    var end := FRAME_OVERHEAD + FromLE(size);
    var payload := bytes[FRAME_OVERHEAD..end];
    assert |payload| == FromLE(size);
    assert bytes == bytes[..HMAC_LEN] + size + payload + bytes[end..];
  }

  // ---------------------------------------------------------------- round trip

  /** The tags of one stream verify. */
  ghost predicate VerifiesOwn(s: Suite, k: Keys, payloads: seq<Bytes>) {
    forall i: nat {:trigger payloads[i]} :: i < |payloads| ==>
      s.hmacVerify(BlockKey(s, k, i), MacInput(i, payloads[i]), BlockTag(s, k, i, payloads[i]))
  }

  /** One pass of the loop over a block in its own place. */
  lemma ReadOwnBlock(s: Suite, k: Keys, payloads: seq<Bytes>, i: nat, rest: Bytes)
    requires Sized(s) && WellFormed(payloads) && VerifiesOwn(s, k, payloads)
    requires i < |payloads| <= U64_MAX
    ensures ReadFrom(s, k, Block(s, k, i, payloads[i]) + rest, i) ==
            if i < |payloads| - 1 then Before(payloads[i], ReadFrom(s, k, rest, i + 1))
            else if rest == [] then Ok([])
            else Err(BodyMalformed)
  {
    SplitWrittenBlock(s, k, i, payloads[i], rest);
  }

  lemma {:induction false} ReadBlocksFrom(s: Suite, k: Keys, payloads: seq<Bytes>, i: nat)
    requires Sized(s) && WellFormed(payloads) && VerifiesOwn(s, k, payloads)
    requires i < |payloads| <= U64_MAX
    ensures ReadFrom(s, k, BlocksFrom(s, k, payloads, i), i) == Ok(Concat(payloads[i..]))
    decreases |payloads| - i
  {
    ReadOwnBlock(s, k, payloads, i, BlocksFrom(s, k, payloads, i + 1));
    if i < |payloads| - 1 {
      ReadBlocksFrom(s, k, payloads, i + 1);
      assert payloads[i..][1..] == payloads[i + 1..];
    } else {
      assert payloads[i..] == [[]] && payloads[i..][1..] == [];
      assert Concat(payloads[i..]) == [] && BlocksFrom(s, k, payloads, i + 1) == [];
    }
  }

  /** Reading undoes framing, for every ciphertext. */
  lemma ReadFramed(s: Suite, k: Keys, ct: Bytes)
    requires Sized(s) && VerifiesOwn(s, k, Payloads(ct, BLOCK_SIZE))
    requires |ct| < U64_MAX
    ensures ReadFrom(s, k, Framed(s, k, ct), 0) == Ok(ct)
  {
    PayloadsWellFormed(ct, BLOCK_SIZE);
    ReadBlocksFrom(s, k, Payloads(ct, BLOCK_SIZE), 0);
    assert Payloads(ct, BLOCK_SIZE)[0..] == Payloads(ct, BLOCK_SIZE);
  }

  // ---------------------------------------------------------------- authenticity

  /** The MAC is ideal under the block keys: they verify no tags but those of the honest blocks `payloads`. */
  ghost predicate VerifiesOnly(s: Suite, k: Keys, payloads: seq<Bytes>) {
    forall at: nat, m: Bytes, t: Bytes {:trigger s.hmacVerify(BlockKey(s, k, at), m, t)} ::
      s.hmacVerify(BlockKey(s, k, at), m, t) ==>
        exists i :: 0 <= i < |payloads| && m == MacInput(i, payloads[i]) && t == BlockTag(s, k, i, payloads[i])
  }

  /** What verifies at index `i` is honest block `i` with its honest tag. */
  ghost predicate AcceptsOwnOnly(s: Suite, k: Keys, payloads: seq<Bytes>) {
    forall i: nat, p: Bytes, t: Bytes {:trigger s.hmacVerify(BlockKey(s, k, i), MacInput(i, p), t)} ::
      i <= U64_MAX && s.hmacVerify(BlockKey(s, k, i), MacInput(i, p), t) ==>
        i < |payloads| && p == payloads[i] && t == BlockTag(s, k, i, p)
  }

  lemma IdealAcceptsOwnOnly(s: Suite, k: Keys, payloads: seq<Bytes>)
    requires VerifiesOnly(s, k, payloads) && |payloads| <= U64_MAX
    ensures AcceptsOwnOnly(s, k, payloads)
  {
    forall i: nat, p: Bytes, t: Bytes | i <= U64_MAX && s.hmacVerify(BlockKey(s, k, i), MacInput(i, p), t)
      ensures i < |payloads| && p == payloads[i] && t == BlockTag(s, k, i, p)
    {
      var j :| 0 <= j < |payloads| && MacInput(i, p) == MacInput(j, payloads[j]) && t == BlockTag(s, k, j, payloads[j]);
      MacInputInjective(i, p, j, payloads[j]);
    }
  }

  lemma {:induction false} AcceptedIsBlocksFrom(s: Suite, k: Keys, payloads: seq<Bytes>, bytes: Bytes, i: nat)
    requires AcceptsOwnOnly(s, k, payloads) && WellFormed(payloads)
    requires i <= |payloads| <= U64_MAX && ReadFrom(s, k, bytes, i).Ok?
    ensures bytes == BlocksFrom(s, k, payloads, i)
    decreases |bytes|
  {
    var b := SplitBlock(bytes).value;
    SplitIsLossless(bytes);
    if b.payload != [] {
      AcceptedIsBlocksFrom(s, k, payloads, b.rest, i + 1);
    }
    assert bytes == Block(s, k, i, b.payload) + b.rest;
  }

  /**
   With an ideal MAC whose only honest tags come from framing `ct`, reading succeeds on one byte string
   alone, the framed output, and gives back `ct`.
   */
  lemma ReadAcceptsExactly(s: Suite, k: Keys, ct: Bytes, bytes: Bytes)
    requires Sized(s)
    requires VerifiesOwn(s, k, Payloads(ct, BLOCK_SIZE)) && VerifiesOnly(s, k, Payloads(ct, BLOCK_SIZE))
    requires |ct| < U64_MAX
    ensures ReadFrom(s, k, bytes, 0).Ok? <==> bytes == Framed(s, k, ct)
    ensures bytes == Framed(s, k, ct) ==> ReadFrom(s, k, bytes, 0) == Ok(ct)
  {
    ReadFramed(s, k, ct);
    if ReadFrom(s, k, bytes, 0).Ok? {
      var payloads := Payloads(ct, BLOCK_SIZE);
      PayloadsWellFormed(ct, BLOCK_SIZE);
      IdealAcceptsOwnOnly(s, k, payloads);
      AcceptedIsBlocksFrom(s, k, payloads, bytes, 0);
    }
  }

  // ---------------------------------------------------------------- what becomes of tampered streams

  /** No two blocks of the stream have the same tag. */
  ghost predicate TagsDistinct(s: Suite, k: Keys, payloads: seq<Bytes>) {
    forall i: nat, j: nat {:trigger BlockTag(s, k, i, payloads[i]), BlockTag(s, k, j, payloads[j])} ::
      i < j < |payloads| ==> BlockTag(s, k, i, payloads[i]) != BlockTag(s, k, j, payloads[j])
  }

  ghost predicate IndexesInto(order: seq<nat>, n: nat) {
    forall i :: 0 <= i < |order| ==> order[i] < n
  }

  /** Honest blocks laid end to end in the order `order` says: swapped, repeated, dropped, replayed. */
  ghost function Spliced(s: Suite, k: Keys, payloads: seq<Bytes>, order: seq<nat>, i: nat): Bytes
    requires IndexesInto(order, |payloads|)
    requires i <= |order|
    decreases |order| - i
  {
    if i == |order| then []
    else Block(s, k, order[i], payloads[order[i]]) + Spliced(s, k, payloads, order, i + 1)
  }

  /** The first `n` places hold their own block, as far as there are that many places. */
  ghost predicate InPlace(order: seq<nat>, n: nat) {
    forall i :: 0 <= i < |order| && i < n ==> order[i] == i
  }

  /** One pass of the loop over an honest block that is not in its own place. */
  lemma ReadMisplacedBlock(s: Suite, k: Keys, payloads: seq<Bytes>, x: nat, i: nat, rest: Bytes)
    requires Sized(s) && WellFormed(payloads)
    requires AcceptsOwnOnly(s, k, payloads) && TagsDistinct(s, k, payloads)
    requires x < |payloads| && i < |payloads| <= U64_MAX && x != i
    ensures ReadFrom(s, k, Block(s, k, x, payloads[x]) + rest, i) == Err(BodyAuth)
  {
    SplitWrittenBlock(s, k, x, payloads[x], rest);
    assert BlockTag(s, k, x, payloads[x]) != BlockTag(s, k, i, payloads[i]);
  }

  lemma InPlaceGrows(order: seq<nat>, n: nat, i: nat)
    requires i <= |order| && InPlace(order[..i], n)
    ensures i < |order| && order[i] == i ==> InPlace(order[..i + 1], n)
    ensures i == |order| || i >= n ==> InPlace(order, n)
    ensures i < |order| && i < n && order[i] != i ==> !InPlace(order, n)
  {
    assert forall j :: 0 <= j < i ==> order[..i][j] == order[j];
  }

  lemma {:induction false} SplicedOutcome(s: Suite, k: Keys, payloads: seq<Bytes>, order: seq<nat>, i: nat)
    requires Sized(s) && WellFormed(payloads) && |payloads| <= U64_MAX
    requires VerifiesOwn(s, k, payloads) && AcceptsOwnOnly(s, k, payloads) && TagsDistinct(s, k, payloads)
    requires IndexesInto(order, |payloads|)
    requires i <= |order| && i < |payloads|
    requires InPlace(order[..i], |payloads|)
    ensures ReadFrom(s, k, Spliced(s, k, payloads, order, i), i).Ok? <==>
      InPlace(order, |payloads|) && |order| == |payloads|
    ensures ReadFrom(s, k, Spliced(s, k, payloads, order, i), i) == Err(BodyAuth) <==> !InPlace(order, |payloads|)
    ensures ReadFrom(s, k, Spliced(s, k, payloads, order, i), i) == Err(BodyMalformed)
      <==> InPlace(order, |payloads|) && |order| != |payloads|
    decreases |order| - i
  {
    InPlaceGrows(order, |payloads|, i);
    if i < |order| {
      var rest := Spliced(s, k, payloads, order, i + 1);
      if order[i] != i {
        ReadMisplacedBlock(s, k, payloads, order[i], i, rest);
      } else {
        ReadOwnBlock(s, k, payloads, i, rest);
        if i < |payloads| - 1 {
          SplicedOutcome(s, k, payloads, order, i + 1);
        } else {
          InPlaceGrows(order, |payloads|, i + 1);
          assert rest == [] <==> i + 1 == |order|;
        }
      }
    }
  }

  /**
   Reordering the blocks of one stream in any way, repeating or dropping some, is detected, and with
   the error the reader's checks come to: a block out of place fails its tag; blocks in place but too
   few, or with more after the terminator, are malformed.
   */
  lemma ResequencingDetected(s: Suite, k: Keys, ct: Bytes, order: seq<nat>)
    requires Sized(s) && |ct| < U64_MAX
    requires VerifiesOwn(s, k, Payloads(ct, BLOCK_SIZE)) && VerifiesOnly(s, k, Payloads(ct, BLOCK_SIZE))
    requires TagsDistinct(s, k, Payloads(ct, BLOCK_SIZE))
    requires IndexesInto(order, |Payloads(ct, BLOCK_SIZE)|)
    ensures var n, r := |Payloads(ct, BLOCK_SIZE)|,
      ReadFrom(s, k, Spliced(s, k, Payloads(ct, BLOCK_SIZE), order, 0), 0);
      && (r.Ok? <==> InPlace(order, n) && |order| == n)
      && (r == Err(BodyAuth) <==> !InPlace(order, n))
      && (r == Err(BodyMalformed) <==> InPlace(order, n) && |order| != n)
  {
    PayloadsWellFormed(ct, BLOCK_SIZE);
    IdealAcceptsOwnOnly(s, k, Payloads(ct, BLOCK_SIZE));
    SplicedOutcome(s, k, Payloads(ct, BLOCK_SIZE), order, 0);
  }

  lemma SplitTruncated(s: Suite, k: Keys, index: nat, payload: Bytes, rest: Bytes, m: nat)
    requires Sized(s) && |payload| <= BLOCK_SIZE
    requires m < |Block(s, k, index, payload)|
    ensures SplitBlock((Block(s, k, index, payload) + rest)[..m]) == Err(BodyMalformed)
  {
    var b := Block(s, k, index, payload) + rest;
    BlockSlices(s, k, index, payload, rest);
    Pow256Widths();
    LERoundTrip(|payload|, 4);
    hide LE, FromLE, Pow256, Block;
    if m >= FRAME_OVERHEAD {
      assert b[..m][HMAC_LEN..FRAME_OVERHEAD] == b[HMAC_LEN..FRAME_OVERHEAD];
    }
  }

  lemma TruncatedPass(s: Suite, k: Keys, payloads: seq<Bytes>, i: nat, head: Bytes, rest: Bytes, m: nat)
    requires Sized(s) && WellFormed(payloads) && VerifiesOwn(s, k, payloads)
    requires i < |payloads| <= U64_MAX && head == Block(s, k, i, payloads[i])
    requires rest != [] ==> i < |payloads| - 1
    requires m < |head| + |rest|
    ensures m < |head| ==> ReadFrom(s, k, (head + rest)[..m], i) == Err(BodyMalformed)
    ensures m >= |head| ==>
      i < |payloads| - 1 &&
      ReadFrom(s, k, (head + rest)[..m], i) == Before(payloads[i], ReadFrom(s, k, rest[..m - |head|], i + 1))
  {
    if m < |head| {
      SplitTruncated(s, k, i, payloads[i], rest, m);
    } else {
      assert (head + rest)[..m] == head + rest[..m - |head|];
      ReadOwnBlock(s, k, payloads, i, rest[..m - |head|]);
    }
  }

  /** Cutting a framed stream anywhere before its end makes it malformed; no ideal MAC is needed. */
  lemma {:induction false} TruncationDetected(s: Suite, k: Keys, payloads: seq<Bytes>, i: nat, m: nat)
    requires Sized(s) && WellFormed(payloads) && VerifiesOwn(s, k, payloads)
    requires i < |payloads| <= U64_MAX
    requires m < |BlocksFrom(s, k, payloads, i)|
    ensures ReadFrom(s, k, BlocksFrom(s, k, payloads, i)[..m], i) == Err(BodyMalformed)
    decreases |payloads| - i
  {
    var head, rest := Block(s, k, i, payloads[i]), BlocksFrom(s, k, payloads, i + 1);
    assert BlocksFrom(s, k, payloads, i) == head + rest;
    TruncatedPass(s, k, payloads, i, head, rest, m);
    if m >= |head| {
      TruncationDetected(s, k, payloads, i + 1, m - |head|);
    }
  }

  /** Anything appended after the terminator makes the stream malformed. */
  lemma {:induction false} ExtensionDetected(s: Suite, k: Keys, payloads: seq<Bytes>, i: nat, extra: Bytes)
    requires Sized(s) && WellFormed(payloads) && VerifiesOwn(s, k, payloads)
    requires i < |payloads| <= U64_MAX
    requires extra != []
    ensures ReadFrom(s, k, BlocksFrom(s, k, payloads, i) + extra, i) == Err(BodyMalformed)
    decreases |payloads| - i
  {
    var head, rest := Block(s, k, i, payloads[i]), BlocksFrom(s, k, payloads, i + 1);
    assert BlocksFrom(s, k, payloads, i) == head + rest;
    Assoc(head, rest, extra);
    ReadOwnBlock(s, k, payloads, i, rest + extra);
    if i < |payloads| - 1 {
      ExtensionDetected(s, k, payloads, i + 1, extra);
    }
  }

  // ---------------------------------------------------------------- size

  /** 36 bytes for every block and for the terminator. */
  function FramedLen(n: nat): nat {
    n + FRAME_OVERHEAD * ((n + BLOCK_SIZE - 1) / BLOCK_SIZE + 1)
  }

  lemma {:induction false} FramedRestLength(s: Suite, k: Keys, rest: Bytes, index: nat)
    requires Sized(s)
    ensures |FramedRest(s, k, rest, BLOCK_SIZE, index)| == FramedLen(|rest|)
    decreases |rest|
  {
    if rest != [] {
      var n := Min(|rest|, BLOCK_SIZE);
      var block, after := Block(s, k, index, rest[..n]), FramedRest(s, k, rest[n..], BLOCK_SIZE, index + 1);
      assert FramedRest(s, k, rest, BLOCK_SIZE, index) == block + after;
      FramedRestLength(s, k, rest[n..], index + 1);
      FramedLenStep(|rest|);
    }
  }

  lemma FramedLenStep(n: nat)
    requires n > 0
    ensures FramedLen(n) == FRAME_OVERHEAD + Min(n, BLOCK_SIZE) + FramedLen(n - Min(n, BLOCK_SIZE))
  {
    if n > BLOCK_SIZE {
      assert (n + BLOCK_SIZE - 1) / BLOCK_SIZE == (n - 1) / BLOCK_SIZE + 1;
    } else {
      assert (n + BLOCK_SIZE - 1) / BLOCK_SIZE == 1;
    }
  }

  lemma FramedLength(s: Suite, k: Keys, ct: Bytes)
    requires Sized(s)
    ensures |Framed(s, k, ct)| == FramedLen(|ct|)
  {
    FramedRestLength(s, k, ct, 0);
    FramedRestIsBlocks(s, k, [], ct, BLOCK_SIZE);
    assert [] + Payloads(ct, BLOCK_SIZE) == Payloads(ct, BLOCK_SIZE);
  }
}
