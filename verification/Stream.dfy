/**
 STREAM payload encryption: 64 KiB chunks, each sealed under a nonce made of a counter and a
 final-chunk marker (crypto/stream.rs).
 */
module Stream {
  import opened Bytes
  import opened Primitives

  const STREAM_CHUNK_SIZE := 65536
  const SEALED_FULL := STREAM_CHUNK_SIZE + TAG_LEN
  const PAYLOAD_INFO: Bytes := [118, 97, 117, 108, 116, 45, 112, 97, 121, 108, 111, 97, 100, 45, 118, 49]

  function PayloadKey(s: Suite, dataKey: Bytes, noncePrefix: Bytes): Bytes {
    s.hkdf(dataKey, noncePrefix, PAYLOAD_INFO)
  }

  /** Three zero bytes, the counter as eight big-endian bytes, the marker. */
  function ChunkNonce(counter: nat, isLast: bool): (r: Bytes)
    ensures |r| == 12
  {
    Zeros(3) + BE(counter, 8) + [if isLast then 1 else 0]
  }

  lemma ChunkNonceInjective(c1: nat, l1: bool, c2: nat, l2: bool)
    requires c1 <= U64_MAX && c2 <= U64_MAX
    requires ChunkNonce(c1, l1) == ChunkNonce(c2, l2)
    ensures c1 == c2 && l1 == l2
  {
    Pow256Widths();
    BERoundTrip(c1, 8);
    BERoundTrip(c2, 8);
    assert ChunkNonce(c1, l1)[3..11] == BE(c1, 8);
    assert ChunkNonce(c2, l2)[3..11] == BE(c2, 8);
    assert ChunkNonce(c1, l1)[11] == ChunkNonce(c2, l2)[11];
  }

  // ---------------------------------------------------------------- the one-shot form

  /** Index of the final chunk of a plaintext; every chunk before it is full. */
  function LastIndex(pt: Bytes): nat { |pt| / STREAM_CHUNK_SIZE }

  /** Chunk `i` of a plaintext. The final one is shorter than a full chunk and may be empty. */
  function Chunk(pt: Bytes, i: nat): (r: Bytes)
    requires i <= LastIndex(pt)
    ensures i < LastIndex(pt) ==> |r| == STREAM_CHUNK_SIZE
    ensures i == LastIndex(pt) ==> |r| < STREAM_CHUNK_SIZE
  {
    if i < LastIndex(pt) then pt[i * STREAM_CHUNK_SIZE..(i + 1) * STREAM_CHUNK_SIZE]
    else pt[i * STREAM_CHUNK_SIZE..]
  }

  function NonceOf(pt: Bytes, i: nat): Bytes { ChunkNonce(i, i == LastIndex(pt)) }

  function SealedChunk(s: Suite, key: Bytes, pt: Bytes, i: nat): Bytes
    requires i <= LastIndex(pt)
  {
    s.seal(key, NonceOf(pt, i), Chunk(pt, i))
  }

  /** Sealed chunks `i` to the last. */
  function SealedFrom(s: Suite, key: Bytes, pt: Bytes, i: nat): Bytes
    requires i <= LastIndex(pt)
    decreases LastIndex(pt) - i
  {
    if i == LastIndex(pt) then SealedChunk(s, key, pt, i)
    else SealedChunk(s, key, pt, i) + SealedFrom(s, key, pt, i + 1)
  }

  /** The STREAM ciphertext of a plaintext. */
  function Sealed(s: Suite, key: Bytes, pt: Bytes): Bytes {
    SealedFrom(s, key, pt, 0)
  }

  /** Every (nonce, plaintext) pair that encrypting `pt` seals. */
  function RunLog(pt: Bytes): (r: seq<(Bytes, Bytes)>)
    ensures |r| == LastIndex(pt) + 1
  {
    seq(LastIndex(pt) + 1, i requires 0 <= i <= LastIndex(pt) => (NonceOf(pt, i), Chunk(pt, i)))
  }

  /** The nonces of one run are pairwise distinct, so no (key, nonce) pair seals two chunks. */
  lemma NoncesDistinct(pt: Bytes, i: nat, j: nat)
    requires i <= LastIndex(pt) <= U64_MAX && j <= LastIndex(pt)
    ensures RunLog(pt)[i].0 == RunLog(pt)[j].0 ==> i == j
  {
    if NonceOf(pt, i) == NonceOf(pt, j) {
      ChunkNonceInjective(i, i == LastIndex(pt), j, j == LastIndex(pt));
    }
  }

  /** 16 bytes of tag for every chunk, the final one included. */
  function SealedLen(n: nat): nat { n + TAG_LEN * (n / STREAM_CHUNK_SIZE + 1) }

  lemma {:induction false} SealedFromLength(s: Suite, key: Bytes, pt: Bytes, i: nat)
    requires Sized(s)
    requires i <= LastIndex(pt)
    ensures |SealedFrom(s, key, pt, i)| == |pt| - i * STREAM_CHUNK_SIZE + TAG_LEN * (LastIndex(pt) - i + 1)
    decreases LastIndex(pt) - i
  {
    if i < LastIndex(pt) {
      SealedFromLength(s, key, pt, i + 1);
    }
  }

  lemma SealedLength(s: Suite, key: Bytes, pt: Bytes)
    requires Sized(s)
    ensures |Sealed(s, key, pt)| == SealedLen(|pt|)
  {
    SealedFromLength(s, key, pt, 0);
  }

  // ---------------------------------------------------------------- reading

  /** One step of the decryptor: the next chunk, what follows it, and the next counter. */
  function NextChunk(s: Suite, key: Bytes, ct: Bytes, counter: nat): (r: Result<Option<(Bytes, Bytes, nat)>>)
    ensures r.Ok? && r.value.Some? ==> |r.value.value.1| < |ct|
  {
    if ct == [] then Ok(None)
    else if |ct| < TAG_LEN then Err(BodyMalformed)
    else
      var take := Min(|ct|, SEALED_FULL);
      var isLast := take == |ct|;
      match s.open(key, ChunkNonce(counter, isLast), ct[..take])
      case None => Err(BodyAuth)
      case Some(p) =>
        var rest: Bytes, next: nat := ct[take..], if isLast then counter else counter + 1;
        if !isLast && counter == U64_MAX then Err(BodyMalformed) else Ok(Some((p, rest, next)))
  }

  /** What the decryptor returns when it stands at `ct` with its counter at `counter`. */
  function DecryptFrom(s: Suite, key: Bytes, ct: Bytes, counter: nat): Result<Bytes>
    decreases |ct|
  {
    match NextChunk(s, key, ct, counter)
    case Err(e) => Err(e)
    case Ok(None) => Ok([])
    case Ok(Some((p, rest, next))) => Prepend(p, DecryptFrom(s, key, rest, next))
  }

  function Prepend(p: Bytes, rest: Result<Bytes>): Result<Bytes> {
    match rest
    case Ok(v) => Ok(p + v)
    case Err(e) => Err(e)
  }

  lemma PrependLaws(a: Bytes, b: Bytes, rest: Result<Bytes>)
    ensures Prepend([], rest) == rest
    ensures Prepend(a, Prepend(b, rest)) == Prepend(a + b, rest)
    ensures Prepend(a, Ok([])) == Ok(a)
  {
    match rest
    case Ok(v) => assert [] + v == v && a + (b + v) == (a + b) + v && a + [] == a;
    case Err(_) => assert a + [] == a;
  }

  function Decrypted(s: Suite, key: Bytes, ct: Bytes): Result<Bytes> {
    DecryptFrom(s, key, ct, 0)
  }

  /** The chunks of one run open again. */
  ghost predicate OpensOwn(s: Suite, key: Bytes, pt: Bytes) {
    forall i {:trigger SealedChunk(s, key, pt, i)} :: 0 <= i <= LastIndex(pt) ==>
      s.open(key, NonceOf(pt, i), SealedChunk(s, key, pt, i)) == Some(Chunk(pt, i))
  }

  lemma DecryptNothing(s: Suite, key: Bytes, counter: nat)
    ensures DecryptFrom(s, key, [], counter) == Ok([])
  {
  }

  lemma {:induction false} DecryptSealedFrom(s: Suite, key: Bytes, pt: Bytes, i: nat)
    requires Sized(s) && OpensOwn(s, key, pt)
    requires i <= LastIndex(pt) <= U64_MAX
    ensures DecryptFrom(s, key, SealedFrom(s, key, pt, i), i) == Ok(pt[i * STREAM_CHUNK_SIZE..])
    decreases LastIndex(pt) - i
  {
    hide SealedFrom, NextChunk;
    NextOwnChunk(s, key, pt, i);
    if i < LastIndex(pt) {
      DecryptSealedFrom(s, key, pt, i + 1);
      assert pt[i * STREAM_CHUNK_SIZE..] == Chunk(pt, i) + pt[(i + 1) * STREAM_CHUNK_SIZE..];
    } else {
      DecryptNothing(s, key, i);
      PrependLaws(Chunk(pt, i), [], Ok([]));
    }
  }

  /** Decryption undoes encryption, for every plaintext, key and suite. */
  lemma DecryptSealed(s: Suite, key: Bytes, pt: Bytes)
    requires Sized(s) && OpensOwn(s, key, pt)
    requires LastIndex(pt) <= U64_MAX
    ensures Decrypted(s, key, Sealed(s, key, pt)) == Ok(pt)
  {
    DecryptSealedFrom(s, key, pt, 0);
    assert pt[0..] == pt;
  }

  /** The chunks of a plaintext, from chunk `i` on. */
  function ChunksFrom(pt: Bytes, i: nat): (r: seq<Bytes>)
    requires i <= LastIndex(pt)
    ensures |r| == LastIndex(pt) - i + 1
    decreases LastIndex(pt) - i
  {
    if i == LastIndex(pt) then [Chunk(pt, i)] else [Chunk(pt, i)] + ChunksFrom(pt, i + 1)
  }

  function Chunks(pt: Bytes): seq<Bytes> { ChunksFrom(pt, 0) }

  lemma {:induction false} ChunksFromConcat(pt: Bytes, i: nat, n: nat)
    requires i <= LastIndex(pt) && n <= LastIndex(pt) - i + 1
    ensures Concat(ChunksFrom(pt, i)[..n]) ==
            pt[i * STREAM_CHUNK_SIZE..if n == LastIndex(pt) - i + 1 then |pt| else (i + n) * STREAM_CHUNK_SIZE]
    decreases LastIndex(pt) - i
  {
    var chunks := ChunksFrom(pt, i);
    if n > 0 {
      assert chunks[..n][0] == Chunk(pt, i);
      if i < LastIndex(pt) {
        ChunksFromConcat(pt, i + 1, n - 1);
        assert chunks[..n][1..] == ChunksFrom(pt, i + 1)[..n - 1];
      } else {
        var first: seq<Bytes> := chunks[..n];
        assert first[1..] == [];
      }
    }
  }

  /** The first `n` chunks are the plaintext up to the next multiple of the chunk size; all of them, the whole of it. */
  lemma ChunksConcat(pt: Bytes, n: nat)
    requires n <= LastIndex(pt) + 1
    ensures Concat(Chunks(pt)[..n]) == if n == LastIndex(pt) + 1 then pt else pt[..n * STREAM_CHUNK_SIZE]
  {
    ChunksFromConcat(pt, 0, n);
    assert pt[0..|pt|] == pt;
  }

  /** The decryptor, standing before chunk `i` of an honest ciphertext, yields that chunk. */
  lemma NextOwnChunk(s: Suite, key: Bytes, pt: Bytes, i: nat)
    requires Sized(s) && OpensOwn(s, key, pt)
    requires i <= LastIndex(pt) <= U64_MAX
    ensures NextChunk(s, key, SealedFrom(s, key, pt, i), i) ==
            if i < LastIndex(pt) then Ok(Some((Chunk(pt, i), SealedFrom(s, key, pt, i + 1), i + 1)))
            else Ok(Some((Chunk(pt, i), [], i)))
  {
    var ct := SealedFrom(s, key, pt, i);
    var head := SealedChunk(s, key, pt, i);
    SealedFromLength(s, key, pt, i);
    if i < LastIndex(pt) {
      SealedFromLength(s, key, pt, i + 1);
      assert ct[..SEALED_FULL] == head && ct[SEALED_FULL..] == SealedFrom(s, key, pt, i + 1);
    } else {
      assert ct[..|ct|] == head;
    }
  }

  // ---------------------------------------------------------------- authenticity

  /** The AEAD is ideal under `key`: it opens nothing but what `log` records as honestly sealed. */
  ghost predicate OpensOnly(s: Suite, key: Bytes, log: seq<(Bytes, Bytes)>) {
    forall nonce, c :: s.open(key, nonce, c).Some? ==>
      exists i :: 0 <= i < |log| && nonce == log[i].0 && c == s.seal(key, nonce, log[i].1)
  }

  /** What opens at position `i` is the run's own chunk `i`, with its own marker. */
  ghost predicate AcceptsOwnOnly(s: Suite, key: Bytes, pt: Bytes) {
    forall i: nat, isLast: bool, c: Bytes {:trigger s.open(key, ChunkNonce(i, isLast), c)} ::
      i <= LastIndex(pt) && s.open(key, ChunkNonce(i, isLast), c).Some? ==>
        isLast == (i == LastIndex(pt)) && c == SealedChunk(s, key, pt, i)
        && s.open(key, ChunkNonce(i, isLast), c) == Some(Chunk(pt, i))
  }

  lemma IdealAcceptsOwnOnly(s: Suite, key: Bytes, pt: Bytes)
    requires OpensOwn(s, key, pt) && OpensOnly(s, key, RunLog(pt))
    requires LastIndex(pt) <= U64_MAX
    ensures AcceptsOwnOnly(s, key, pt)
  {
    hide ChunkNonce, Chunk;
    var log := RunLog(pt);
    forall i: nat, isLast: bool, c: Bytes | i <= LastIndex(pt) && s.open(key, ChunkNonce(i, isLast), c).Some?
      ensures isLast == (i == LastIndex(pt)) && c == SealedChunk(s, key, pt, i)
      ensures s.open(key, ChunkNonce(i, isLast), c) == Some(Chunk(pt, i))
    {
      var j :| 0 <= j < |log| && ChunkNonce(i, isLast) == log[j].0 && c == s.seal(key, log[j].0, log[j].1);
      ChunkNonceInjective(i, isLast, j, j == LastIndex(pt));
    }
  }

  lemma {:induction false} AcceptedIsSealedFrom(s: Suite, key: Bytes, pt: Bytes, ct: Bytes, i: nat)
    requires AcceptsOwnOnly(s, key, pt)
    requires i <= LastIndex(pt)
    requires ct != [] && DecryptFrom(s, key, ct, i).Ok?
    ensures ct == SealedFrom(s, key, pt, i)
    decreases |ct|
  {
    var take := Min(|ct|, SEALED_FULL);
    if take < |ct| {
      AcceptedIsSealedFrom(s, key, pt, ct[take..], i + 1);
    }
    assert ct == ct[..take] + ct[take..];
  }

  /**
   With an ideal AEAD the decryptor accepts two strings and no others: the ciphertext of the one
   honest run, which gives back its plaintext, and the empty string, which gives back nothing.
   */
  lemma DecryptAcceptsExactly(s: Suite, key: Bytes, pt: Bytes, ct: Bytes)
    requires Sized(s) && OpensOwn(s, key, pt) && OpensOnly(s, key, RunLog(pt))
    requires LastIndex(pt) <= U64_MAX
    ensures Decrypted(s, key, ct).Ok? <==> ct == Sealed(s, key, pt) || ct == []
    ensures ct == Sealed(s, key, pt) ==> Decrypted(s, key, ct) == Ok(pt)
    ensures ct == [] ==> Decrypted(s, key, ct) == Ok([])
  {
    DecryptSealed(s, key, pt);
    if ct != [] && Decrypted(s, key, ct).Ok? {
      IdealAcceptsOwnOnly(s, key, pt);
      AcceptedIsSealedFrom(s, key, pt, ct, 0);
    }
  }

  /** The plaintext handed out before the decryptor stops, whether at the end or at an error. */
  function ReleasedFrom(s: Suite, key: Bytes, ct: Bytes, counter: nat): Bytes
    decreases |ct|
  {
    match NextChunk(s, key, ct, counter)
    case Ok(Some((p, rest, next))) => p + ReleasedFrom(s, key, rest, next)
    case _ => []
  }

  lemma ChunkThenSlice(pt: Bytes, i: nat, end: nat)
    requires i < LastIndex(pt) && (i + 1) * STREAM_CHUNK_SIZE <= end <= |pt|
    ensures Chunk(pt, i) + pt[(i + 1) * STREAM_CHUNK_SIZE..end] == pt[i * STREAM_CHUNK_SIZE..end]
  {
  }

  /** Everything released from chunk `i` on is an unbroken stretch of the honest plaintext. */
  lemma {:induction false} ReleasedIsStretch(s: Suite, key: Bytes, pt: Bytes, ct: Bytes, i: nat) returns (end: nat)
    requires AcceptsOwnOnly(s, key, pt)
    requires i <= LastIndex(pt) <= U64_MAX
    ensures i * STREAM_CHUNK_SIZE <= end <= |pt|
    ensures ReleasedFrom(s, key, ct, i) == pt[i * STREAM_CHUNK_SIZE..end]
    decreases |ct|
  {
    end := i * STREAM_CHUNK_SIZE;
    if |ct| >= TAG_LEN {
      var take := Min(|ct|, SEALED_FULL);
      var isLast := take == |ct|;
      if s.open(key, ChunkNonce(i, isLast), ct[..take]).Some? {
        if isLast {
          end := |pt|;
        } else {
          end := ReleasedIsStretch(s, key, pt, ct[take..], i + 1);
          ChunkThenSlice(pt, i, end);
        }
      }
    }
  }

  /**
   No plaintext byte is released before its chunk's tag verifies: on any byte string, even one that
   is later rejected, what has been handed out is a prefix of the honest plaintext.
   */
  lemma ReleasedIsPrefix(s: Suite, key: Bytes, pt: Bytes, ct: Bytes)
    requires OpensOwn(s, key, pt) && OpensOnly(s, key, RunLog(pt))
    requires LastIndex(pt) <= U64_MAX
    ensures ReleasedFrom(s, key, ct, 0) <= pt
  {
    IdealAcceptsOwnOnly(s, key, pt);
    var end := ReleasedIsStretch(s, key, pt, ct, 0);
  }

  // ---------------------------------------------------------------- incremental writer

  /** The first `n` sealed chunks, none of them final. */
  ghost function SealedPrefix(s: Suite, key: Bytes, pt: Bytes, n: nat): Bytes
    requires n <= LastIndex(pt)
  {
    if n == 0 then []
    else SealedPrefix(s, key, pt, n - 1) + SealedChunk(s, key, pt, n - 1)
  }

  lemma {:induction false} SealedPrefixExtend(s: Suite, key: Bytes, pt: Bytes, more: Bytes, n: nat)
    requires n <= LastIndex(pt)
    ensures n <= LastIndex(pt + more)
    ensures SealedPrefix(s, key, pt + more, n) == SealedPrefix(s, key, pt, n)
  {
    if n > 0 {
      SealedPrefixExtend(s, key, pt, more, n - 1);
      assert Chunk(pt + more, n - 1) == Chunk(pt, n - 1);
      assert SealedChunk(s, key, pt + more, n - 1) == SealedChunk(s, key, pt, n - 1);
    }
  }

  lemma {:induction false} SealedPrefixThenRest(s: Suite, key: Bytes, pt: Bytes, n: nat)
    requires n <= LastIndex(pt)
    ensures SealedPrefix(s, key, pt, n) + SealedFrom(s, key, pt, n) == Sealed(s, key, pt)
  {
    hide SealedChunk;
    if n > 0 {
      SealedPrefixThenRest(s, key, pt, n - 1);
      var before, chunk, after := SealedPrefix(s, key, pt, n - 1), SealedChunk(s, key, pt, n - 1),
          SealedFrom(s, key, pt, n);
      assert SealedPrefix(s, key, pt, n) == before + chunk;
      assert SealedFrom(s, key, pt, n - 1) == chunk + after;
      Assoc(before, chunk, after);
    }
  }

  /** The first `n` log entries of a run that has more chunks to come. */
  ghost function LogPrefix(pt: Bytes, n: nat): (r: seq<(Bytes, Bytes)>)
    requires n <= LastIndex(pt)
    ensures |r| == n
  {
    seq(n, i requires 0 <= i < n => (ChunkNonce(i, false), Chunk(pt, i)))
  }

  /** How the encryptor's fields relate to the plaintext `total` pushed so far. */
  ghost predicate Consistent(s: Suite, key: Bytes, total: Bytes, pending: Bytes, out: Bytes, counter: nat,
                             plaintextLen: nat, log: seq<(Bytes, Bytes)>)
  {
    && counter <= LastIndex(total)
    && pending == total[counter * STREAM_CHUNK_SIZE..]
    && plaintextLen == |total|
    && out == SealedPrefix(s, key, total, counter)
    && log == LogPrefix(total, counter)
  }

  lemma LogPrefixExtend(pt: Bytes, more: Bytes, n: nat)
    requires n <= LastIndex(pt)
    ensures n <= LastIndex(pt + more) && LogPrefix(pt + more, n) == LogPrefix(pt, n)
  {
    hide ChunkNonce;
    forall i: nat | i < n ensures Chunk(pt + more, i) == Chunk(pt, i) {}
  }

  lemma ConsistentAfterAppend(s: Suite, key: Bytes, total: Bytes, pending: Bytes, out: Bytes, counter: nat,
                              plaintextLen: nat, log: seq<(Bytes, Bytes)>, data: Bytes)
    requires Consistent(s, key, total, pending, out, counter, plaintextLen, log)
    ensures Consistent(s, key, total + data, pending + data, out, counter, plaintextLen + |data|, log)
  {
    SealedPrefixExtend(s, key, total, data, counter);
    LogPrefixExtend(total, data, counter);
    hide SealedPrefix, LogPrefix, ChunkNonce;
    var at := counter * STREAM_CHUNK_SIZE;
    assert (total + data)[at..] == total[at..] + data;
  }

  lemma ConsistentAfterSeal(s: Suite, key: Bytes, total: Bytes, pending: Bytes, out: Bytes, counter: nat,
                            plaintextLen: nat, log: seq<(Bytes, Bytes)>)
    requires Consistent(s, key, total, pending, out, counter, plaintextLen, log)
    requires |pending| >= STREAM_CHUNK_SIZE
    ensures var chunk, nonce := pending[..STREAM_CHUNK_SIZE], ChunkNonce(counter, false);
      Consistent(s, key, total, pending[STREAM_CHUNK_SIZE..], out + s.seal(key, nonce, chunk), counter + 1,
                 plaintextLen, log + [(nonce, chunk)])
  {
    assert pending[..STREAM_CHUNK_SIZE] == Chunk(total, counter);
    assert LogPrefix(total, counter + 1)
      == LogPrefix(total, counter) + [(ChunkNonce(counter, false), Chunk(total, counter))];
  }

  /** The counter says how many chunks there are, once less than a chunk is pending. */
  lemma ConsistentCount(s: Suite, key: Bytes, total: Bytes, pending: Bytes, out: Bytes, counter: nat,
                        plaintextLen: nat, log: seq<(Bytes, Bytes)>)
    requires Consistent(s, key, total, pending, out, counter, plaintextLen, log)
    ensures |pending| < STREAM_CHUNK_SIZE ==> LastIndex(total) == counter
    ensures |pending| >= STREAM_CHUNK_SIZE ==> LastIndex(total) > counter
  {
    assert |total| == counter * STREAM_CHUNK_SIZE + |pending|;
  }

  lemma ConsistentAtFinish(s: Suite, key: Bytes, total: Bytes, pending: Bytes, out: Bytes, counter: nat,
                           plaintextLen: nat, log: seq<(Bytes, Bytes)>)
    requires Consistent(s, key, total, pending, out, counter, plaintextLen, log)
    requires |pending| < STREAM_CHUNK_SIZE
    ensures var nonce := ChunkNonce(counter, true);
      && out + s.seal(key, nonce, pending) == Sealed(s, key, total)
      && log + [(nonce, pending)] == RunLog(total)
      && (pending == [] ==> plaintextLen % STREAM_CHUNK_SIZE == 0)
  {
    SealedPrefixThenRest(s, key, total, counter);
    assert |total| == counter * STREAM_CHUNK_SIZE + |pending|;
    assert counter == LastIndex(total);
    assert pending == Chunk(total, counter);
  }

  class StreamEncryptor {
    const suite: Suite
    const key: Bytes
    var pending: Bytes
    var out: Bytes
    var counter: u64
    var finished: bool
    var plaintextLen: nat
    ghost var total: Bytes                  // every byte pushed so far
    ghost var log: seq<(Bytes, Bytes)>      // every (nonce, plaintext) sealed so far

    /** Full chunks are sealed eagerly, so what is pending is shorter than one chunk. */
    ghost predicate Valid()
      reads this
    {
      && |pending| < STREAM_CHUNK_SIZE
      && Consistent(suite, key, total, pending, out, counter, plaintextLen, log)
    }

    constructor (suite: Suite, dataKey: Bytes, noncePrefix: Bytes)
      ensures Valid() && !finished && total == []
      ensures this.suite == suite && key == PayloadKey(suite, dataKey, noncePrefix)
    {
      this.suite := suite;
      key := PayloadKey(suite, dataKey, noncePrefix);
      pending, out, counter, finished, plaintextLen := [], [], 0, false, 0;
      total, log := [], [];
    }

    /**
     Append plaintext. Fails on a finished encryptor, and when the 64-bit chunk counter runs out,
     which takes 2^80 bytes of plaintext.
     */
    method Push(data: Bytes) returns (r: Result<Unit>)
      requires Valid()
      modifies this
      ensures r == if finished then Err(Crypto)
                   else if LastIndex(old(total) + data) <= U64_MAX then Ok(Unit)
                   else Err(BodyMalformed)
      ensures r.Ok? ==> Valid() && total == old(total) + data
      ensures finished == old(finished)
      ensures finished ==> unchanged(this)
    {
      if finished {
        return Err(Crypto);
      }
      ConsistentAfterAppend(suite, key, total, pending, out, counter, plaintextLen, log, data);
      plaintextLen := plaintextLen + |data|;
      total := total + data;
      pending := pending + data;
      while |pending| >= STREAM_CHUNK_SIZE
        invariant Consistent(suite, key, total, pending, out, counter, plaintextLen, log)
        invariant total == old(total) + data && !finished
        decreases |pending|
      {
        ConsistentCount(suite, key, total, pending, out, counter, plaintextLen, log);
        var sealed := SealFront();
        if sealed.Err? {
          return sealed;
        }
      }
      ConsistentCount(suite, key, total, pending, out, counter, plaintextLen, log);
      r := Ok(Unit);
    }

    /** Take one full chunk off the pending plaintext and seal it. */
    method SealFront() returns (r: Result<Unit>)
      requires Consistent(suite, key, total, pending, out, counter, plaintextLen, log)
      requires |pending| >= STREAM_CHUNK_SIZE
      modifies this`pending, this`out, this`counter, this`log
      ensures r == if old(counter) == U64_MAX then Err(BodyMalformed) else Ok(Unit)
      ensures |pending| < |old(pending)|
      ensures r.Ok? ==> Consistent(suite, key, total, pending, out, counter, plaintextLen, log)
    {
      ConsistentAfterSeal(suite, key, total, pending, out, counter, plaintextLen, log);
      var chunk := pending[..STREAM_CHUNK_SIZE];
      pending := pending[STREAM_CHUNK_SIZE..];
      r := SealOne(chunk, false);
    }

    method SealOne(chunk: Bytes, isLast: bool) returns (r: Result<Unit>)
      modifies this`out, this`counter, this`log
      ensures out == old(out) + suite.seal(key, ChunkNonce(old(counter), isLast), chunk)
      ensures log == old(log) + [(ChunkNonce(old(counter), isLast), chunk)]
      ensures r == if !isLast && old(counter) == U64_MAX then Err(BodyMalformed) else Ok(Unit)
      ensures counter == if isLast || old(counter) == U64_MAX then old(counter) else old(counter) + 1
    {
      var nonce := ChunkNonce(counter, isLast);
      out := out + suite.seal(key, nonce, chunk);
      log := log + [(nonce, chunk)];
      if !isLast {
        if counter == U64_MAX {
          return Err(BodyMalformed);
        }
        counter := counter + 1;
      }
      r := Ok(Unit);
    }

    /** Seal the remainder with the final marker; the result is the one-shot ciphertext of everything pushed. */
    method Finish() returns (r: Result<Bytes>)
      requires Valid()
      modifies this
      ensures r == if old(finished) then Err(Crypto) else Ok(Sealed(suite, key, old(total)))
      ensures finished && total == old(total)
      ensures r.Ok? ==> log == RunLog(total)
    {
      if finished {
        return Err(Crypto);
      }
      finished := true;
      ConsistentAtFinish(suite, key, total, pending, out, counter, plaintextLen, log);
      if pending == [] {
        // The inner test always holds here: nothing pending means only whole chunks were pushed.
        if plaintextLen == 0 || plaintextLen % STREAM_CHUNK_SIZE == 0 {
          var sealed := SealOne([], true);
          match sealed {
            case Err(e) => return Err(e);
            case Ok(_) =>
          }
        }
      } else {
        var tail := pending;
        pending := [];
        var sealed := SealOne(tail, true);
        match sealed {
          case Err(e) => return Err(e);
          case Ok(_) =>
        }
      }
      r := Ok(out);
    }
  }

  method Encrypt(s: Suite, dataKey: Bytes, noncePrefix: Bytes, plaintext: Bytes) returns (r: Result<Bytes>)
    ensures r == if LastIndex(plaintext) <= U64_MAX then Ok(Sealed(s, PayloadKey(s, dataKey, noncePrefix), plaintext))
                 else Err(BodyMalformed)
  {
    var enc := new StreamEncryptor(s, dataKey, noncePrefix);
    var pushed := enc.Push(plaintext);
    assert [] + plaintext == plaintext;
    if pushed.Err? {
      return Err(pushed.error);
    }
    r := enc.Finish();
  }

  /** However a plaintext is cut into pushes, the ciphertext is that of the whole. */
  method EncryptInPieces(s: Suite, dataKey: Bytes, noncePrefix: Bytes, pieces: seq<Bytes>) returns (r: Result<Bytes>)
    requires LastIndex(Concat(pieces)) <= U64_MAX
    ensures r == Ok(Sealed(s, PayloadKey(s, dataKey, noncePrefix), Concat(pieces)))
  {
    var enc := new StreamEncryptor(s, dataKey, noncePrefix);
    assert Concat(pieces[..0]) == [];
    for i := 0 to |pieces|
      invariant enc.Valid() && !enc.finished
      invariant enc.total == Concat(pieces[..i])
      modifies enc
    {
      ConcatNext(pieces, i);
      ConcatTake(pieces, i + 1);
      LastIndexMonotone(Concat(pieces[..i + 1]), Concat(pieces));
      var pushed := enc.Push(pieces[i]);
      match pushed {
        case Err(e) => return Err(e);
        case Ok(_) =>
      }
    }
    assert pieces[..|pieces|] == pieces;
    r := enc.Finish();
  }

  lemma LastIndexMonotone(a: Bytes, b: Bytes)
    requires |a| <= |b|
    ensures LastIndex(a) <= LastIndex(b)
  {
  }

  // ---------------------------------------------------------------- incremental reader

  class StreamDecryptor {
    const suite: Suite
    const key: Bytes
    var rest: Bytes
    var counter: u64

    constructor (suite: Suite, dataKey: Bytes, noncePrefix: Bytes, ciphertext: Bytes)
      ensures this.suite == suite && key == PayloadKey(suite, dataKey, noncePrefix)
      ensures rest == ciphertext && counter == 0
    {
      this.suite := suite;
      key := PayloadKey(suite, dataKey, noncePrefix);
      rest, counter := ciphertext, 0;
    }

    /** Everything that reading from here to the end gives. */
    ghost function Remaining(): Result<Bytes>
      reads this
    {
      DecryptFrom(suite, key, rest, counter)
    }

    /** The next verified chunk, or `None` at the end of the input. */
    method NextPlaintextChunk() returns (r: Result<Option<Bytes>>)
      modifies this
      ensures NextChunk(suite, key, old(rest), old(counter)) ==
        match r
        case Err(e) => Err(e)
        case Ok(None) => Ok(None)
        case Ok(Some(p)) => Ok(Some((p, rest, counter)))
      ensures match r
        case Err(e) => old(Remaining()) == Err(e) && old(ReleasedFrom(suite, key, rest, counter)) == []
        case Ok(None) => old(rest) == [] && rest == []
        case Ok(Some(p)) =>
          && |rest| < |old(rest)|
          && old(Remaining()) == Prepend(p, Remaining())
          && old(ReleasedFrom(suite, key, rest, counter)) == p + ReleasedFrom(suite, key, rest, counter)
    {
      if rest == [] {
        return Ok(None);
      }
      if |rest| < TAG_LEN {
        return Err(BodyMalformed);
      }
      var take := Min(|rest|, SEALED_FULL);
      var isLast := take == |rest|;
      var nonce := ChunkNonce(counter, isLast);
      var pt := suite.open(key, nonce, rest[..take]);
      if pt.None? {
        return Err(BodyAuth);
      }
      rest := rest[take..];
      if !isLast {
        if counter == U64_MAX {
          return Err(BodyMalformed);
        }
        counter := counter + 1;
      }
      assert pt.value + [] == pt.value;
      r := Ok(Some(pt.value));
    }
  }

  method Decrypt(s: Suite, dataKey: Bytes, noncePrefix: Bytes, ciphertext: Bytes) returns (r: Result<Bytes>)
    ensures r == Decrypted(s, PayloadKey(s, dataKey, noncePrefix), ciphertext)
  {
    var dec := new StreamDecryptor(s, dataKey, noncePrefix, ciphertext);
    ghost var whole := dec.Remaining();
    var out: Bytes := [];
    PrependLaws([], [], whole);
    while true
      invariant dec.suite == s && fresh(dec)
      invariant whole == Prepend(out, dec.Remaining())
      decreases |dec.rest|
    {
      var next := dec.NextPlaintextChunk();
      match next
      case Err(e) => return Err(e);
      case Ok(None) =>
        PrependLaws(out, [], whole);
        return Ok(out);
      case Ok(Some(p)) =>
        PrependLaws(out, p, dec.Remaining());
        out := out + p;
    }
  }

  /**
   Hand each verified chunk to `onChunk`, which sees the chunks so far and may stop the walk. What it
   has been given, followed by `held`, is what the ciphertext releases, whatever the outcome.
   */
  method DecryptStreaming(s: Suite, dataKey: Bytes, noncePrefix: Bytes, ciphertext: Bytes,
                          onChunk: seq<Bytes> -> Result<Unit>)
    returns (r: Result<Unit>, given: seq<Bytes>, ghost held: Bytes)
    ensures ReleasedFrom(s, PayloadKey(s, dataKey, noncePrefix), ciphertext, 0) == Concat(given) + held
    ensures r.Ok? ==> Decrypted(s, PayloadKey(s, dataKey, noncePrefix), ciphertext) == Ok(Concat(given))
    ensures Decrypted(s, PayloadKey(s, dataKey, noncePrefix), ciphertext).Ok? && r.Err? ==> onChunk(given) == r
  {
    var dec := new StreamDecryptor(s, dataKey, noncePrefix, ciphertext);
    ghost var whole := dec.Remaining();
    given, held := [], ReleasedFrom(s, dec.key, ciphertext, 0);
    PrependLaws([], [], whole);
    while true
      invariant dec.suite == s && fresh(dec) && dec.key == PayloadKey(s, dataKey, noncePrefix)
      invariant whole == Prepend(Concat(given), dec.Remaining())
      invariant held == ReleasedFrom(s, dec.key, dec.rest, dec.counter)
      invariant ReleasedFrom(s, dec.key, ciphertext, 0) == Concat(given) + held
      decreases |dec.rest|
    {
      var next := dec.NextPlaintextChunk();
      match next
      case Err(e) => return Err(e), given, held;
      case Ok(None) =>
        PrependLaws(Concat(given), [], whole);
        return Ok(Unit), given, held;
      case Ok(Some(p)) =>
        ConcatAppend(given, p);
        PrependLaws(Concat(given), p, dec.Remaining());
        ghost var after := ReleasedFrom(s, dec.key, dec.rest, dec.counter);
        Assoc(Concat(given), p, after);
        given, held := given + [p], after;
        var verdict := onChunk(given);
        if verdict.Err? {
          return verdict, given, held;
        }
    }
  }
}
