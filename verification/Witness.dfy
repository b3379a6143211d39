/**
 The laws the theorems require are not contradictory. One suite satisfies all of them together, for any
 finite lists of passwords, keyfiles and HKDF inputs and any number of saves under one data key; and in
 it vaults are created, saved and opened.
 */
module Witness {
  import opened Bytes
  import opened Primitives
  import opened Headers
  import opened Envelope
  import opened Keyring
  import opened Unlock
  import opened Body
  import opened Containers
  import opened Vaults
  import Entries
  import Payloads
  import Stream
  import BlockStream

  function Ones(n: nat): (r: Bytes)
    ensures |r| == n
  {
    seq(n, _ => 1)
  }

  /** The place of `x` in the list, or the list's length. */
  function IndexOf<T(==)>(a: seq<T>, x: T): (i: nat)
    ensures i <= |a|
    ensures x in a ==> i < |a| && a[i] == x
  {
    if a == [] || a[0] == x then 0 else 1 + IndexOf(a[1..], x)
  }

  // ---------------------------------------------------------------- the primitives

  /** HKDF: an injective encoding of its three inputs. */
  function Encoded(x: KdfInput): Bytes {
    Ones(|x.ikm|) + [0] + (Ones(|x.salt|) + [0] + (x.ikm + (x.salt + x.info)))
  }

  lemma UnarySplit(m: nat, x: Bytes, n: nat, y: Bytes)
    requires Ones(m) + [0] + x == Ones(n) + [0] + y
    ensures m == n && x == y
  {
    var s, t := Ones(m) + [0] + x, Ones(n) + [0] + y;
    assert s[m] == 0 && t[n] == 0;
    assert s[m + 1..] == x && t[n + 1..] == y;
  }

  lemma EncodedInjective(x: KdfInput, y: KdfInput)
    requires Encoded(x) == Encoded(y)
    ensures x == y
  {
    var a, b := x.ikm + (x.salt + x.info), y.ikm + (y.salt + y.info);
    UnarySplit(|x.ikm|, Ones(|x.salt|) + [0] + a, |y.ikm|, Ones(|y.salt|) + [0] + b);
    UnarySplit(|x.salt|, a, |y.salt|, b);
    SplitUnique(x.ikm, x.salt + x.info, y.ikm, y.salt + y.info);
    SplitUnique(x.salt, x.info, y.salt, y.info);
  }

  /** A MAC tag that shows the first eight bytes of the message, which in a block are its index. */
  function ShownTag(m: Bytes): (r: Bytes)
    ensures |r| == HMAC_LEN
  {
    if |m| >= 8 then m[..8] + Zeros(24) else Zeros(HMAC_LEN)
  }

  /** The chunks of a save's ciphertext as they are framed; sealing appends sixteen zeros whatever the key. */
  function BlocksOf(pt: Bytes): seq<Bytes> {
    BlockStream.Payloads(Stream.Sealed(Plain(), [], pt), BlockStream.BLOCK_SIZE)
  }

  function Plain(): Suite {
    Suite((a, b, c) => [], (k, m) => [], (k, m, t) => false, (k, n, p) => p + Zeros(TAG_LEN), (k, n, c) => None,
          (k, n, p) => [], (k, n, c) => None, b => [], b => true, b => b, (p, salt, c) => Err(Crypto), (k, at) => 0)
  }

  /** The block keys of a save are those of its master seed, one for every index. */
  ghost predicate IsBlockKey(dk: Bytes, save: Save, k: Bytes) {
    exists at: nat :: k == Encoded(KdfInput(dk, LE(at, 8) + save.header.masterSeed, BlockStream.BLOCK_HMAC_INFO))
  }

  ghost predicate IsBlock(save: Save, m: Bytes) {
    exists j :: 0 <= j < |BlocksOf(save.plaintext)| && m == BlockStream.MacInput(j, BlocksOf(save.plaintext)[j])
  }

  /** The MAC verifies, with its shown tag, what the log of saves says was tagged, and nothing else. */
  ghost predicate Logged(dk: Bytes, saves: seq<Save>, k: Bytes, m: Bytes) {
    || (k == Encoded(KdfInput(dk, [], HEADER_HMAC_INFO))
        && exists i {:trigger saves[i]} :: 0 <= i < |saves| && m == AuthSpan(saves[i].header))
    || exists i {:trigger saves[i]} :: 0 <= i < |saves| && IsBlockKey(dk, saves[i], k) && IsBlock(saves[i], m)
  }

  /** The AEAD opens what the log of saves says was sealed, and nothing else. */
  ghost function LoggedOpen(dk: Bytes, saves: seq<Save>, k: Bytes, nonce: Bytes, c: Bytes): Option<Bytes> {
    if |c| >= TAG_LEN && c[|c| - TAG_LEN..] == Zeros(TAG_LEN)
       && exists i {:trigger saves[i]} ::
            0 <= i < |saves| && k == Encoded(KdfInput(dk, saves[i].header.noncePrefix, Stream.PAYLOAD_INFO))
            && (nonce, c[..|c| - TAG_LEN]) in Stream.RunLog(saves[i].plaintext)
    then Some(c[..|c| - TAG_LEN]) else None
  }

  function WrappingKeys(inputs: seq<KdfInput>): seq<Bytes> {
    seq(|inputs|, i requires 0 <= i < |inputs| => Encoded(inputs[i]))
  }

  /** The tag of a wrapped key: the number of the wrapping key it was sealed under. */
  function KeyTag(inputs: seq<KdfInput>, key: Bytes): (r: Bytes)
    ensures |r| == TAG_LEN
  {
    LE(IndexOf(WrappingKeys(inputs), key), TAG_LEN)
  }

  function XOpen(inputs: seq<KdfInput>, key: Bytes, c: Bytes): Option<Bytes> {
    if |c| >= TAG_LEN && c[|c| - TAG_LEN..] == KeyTag(inputs, key) then Some(c[..|c| - TAG_LEN]) else None
  }

  /** Argon2id: the number of the password, and the costs. */
  function Stretch(passwords: seq<Bytes>, pw: Bytes, costs: Costs): (r: Bytes)
    ensures |r| == 32
  {
    LE(IndexOf(passwords, pw), 16) + (LE(costs.m, 4) + (LE(costs.t, 4) + (LE(costs.p, 4) + Zeros(4))))
  }

  ghost function IdealSuite(passwords: seq<Bytes>, keyfiles: seq<Bytes>, inputs: seq<KdfInput>, dk: Bytes,
                            saves: seq<Save>): Suite {
    Suite((ikm, salt, info) => Encoded(KdfInput(ikm, salt, info)),
          (k, m) => ShownTag(m),
          (k, m, t) => t == ShownTag(m) && Logged(dk, saves, k, m),
          (k, n, p) => p + Zeros(TAG_LEN),
          (k, n, c) => LoggedOpen(dk, saves, k, n, c),
          (k, n, p) => p + KeyTag(inputs, k),
          (k, n, c) => XOpen(inputs, k, c),
          b => LE(IndexOf(keyfiles, b), 32),
          b => true,
          b => b,
          (pw, salt, costs) => Ok(Stretch(passwords, pw, costs)),
          (k, at) => 0)
  }

  // ---------------------------------------------------------------- ideal wrapping, for any finite lists

  /** As many as sixteen bytes can number; more wrapping keys a tag of that length cannot tell apart. */
  const MANY := Pow256(TAG_LEN)

  lemma Numbered<T>(a: seq<T>, x: T, y: T, width: nat)
    requires x in a && y in a && |a| <= Pow256(width)
    ensures LE(IndexOf(a, x), width) == LE(IndexOf(a, y), width) ==> x == y
  {
    LERoundTrip(IndexOf(a, x), width);
    LERoundTrip(IndexOf(a, y), width);
  }

  lemma Pow256Grows(m: nat, n: nat)
    requires m <= n
    ensures Pow256(m) <= Pow256(n)
    decreases n
  {
    if m < n {
      Pow256Grows(m, n - 1);
    }
  }

  lemma StretchInjective(passwords: seq<Bytes>, p: Bytes, c: Costs, q: Bytes, d: Costs)
    requires |passwords| <= MANY && p in passwords && q in passwords
    requires Stretch(passwords, p, c) == Stretch(passwords, q, d)
    ensures p == q && c == d
  {
    hide LE;
    var x, y := LE(IndexOf(passwords, p), 16), LE(IndexOf(passwords, q), 16);
    SplitUnique(x, LE(c.m, 4) + (LE(c.t, 4) + (LE(c.p, 4) + Zeros(4))),
                y, LE(d.m, 4) + (LE(d.t, 4) + (LE(d.p, 4) + Zeros(4))));
    SplitUnique(LE(c.m, 4), LE(c.t, 4) + (LE(c.p, 4) + Zeros(4)), LE(d.m, 4), LE(d.t, 4) + (LE(d.p, 4) + Zeros(4)));
    SplitUnique(LE(c.t, 4), LE(c.p, 4) + Zeros(4), LE(d.t, 4), LE(d.p, 4) + Zeros(4));
    SplitUnique(LE(c.p, 4), Zeros(4), LE(d.p, 4), Zeros(4));
    Numbered(passwords, p, q, 16);
    Pow256Widths();
    LERoundTrip(c.m, 4);
    LERoundTrip(d.m, 4);
    LERoundTrip(c.t, 4);
    LERoundTrip(d.t, 4);
    LERoundTrip(c.p, 4);
    LERoundTrip(d.p, 4);
  }

  lemma KeyTagsDistinct(inputs: seq<KdfInput>, x: KdfInput, y: KdfInput)
    requires |inputs| <= MANY && x in inputs && y in inputs && x != y
    ensures KeyTag(inputs, Encoded(x)) != KeyTag(inputs, Encoded(y))
  {
    var keys := WrappingKeys(inputs);
    assert keys[IndexOf(inputs, x)] == Encoded(x) && keys[IndexOf(inputs, y)] == Encoded(y);
    Numbered(keys, Encoded(x), Encoded(y), TAG_LEN);
    if Encoded(x) == Encoded(y) {
      EncodedInjective(x, y);
    }
  }

  ghost function Elements<T>(a: seq<T>): set<T> { set x | x in a }

  ghost function UniverseOf(passwords: seq<Bytes>, keyfiles: seq<Bytes>, inputs: seq<KdfInput>): Universe {
    Universe(Elements(passwords), Elements(keyfiles), Elements(inputs))
  }

  lemma XOpens(inputs: seq<KdfInput>, sealKey: Bytes, openKey: Bytes, m: Bytes)
    ensures XOpen(inputs, openKey, m + KeyTag(inputs, sealKey)) ==
            if KeyTag(inputs, openKey) == KeyTag(inputs, sealKey) then Some(m) else None
  {
    hide KeyTag;
    var c := m + KeyTag(inputs, sealKey);
    assert c[|c| - TAG_LEN..] == KeyTag(inputs, sealKey) && c[..|c| - TAG_LEN] == m;
  }

  /** A key sealed under one wrapping key opens under that one, and under no other of those in play. */
  lemma KeysIdeal(s: Suite, passwords: seq<Bytes>, keyfiles: seq<Bytes>, inputs: seq<KdfInput>, dk: Bytes,
      saves: seq<Save>)
    requires s == IdealSuite(passwords, keyfiles, inputs, dk, saves) && |inputs| <= MANY
    ensures Unwraps(s)
    ensures forall x, y :: x in inputs && y in inputs && Derive(s, x) == Derive(s, y) ==> x == y
    ensures forall x, y, n, p :: x in inputs && y in inputs && x != y ==>
      s.xopen(Derive(s, y), n, s.xseal(Derive(s, x), n, p)).None?
  {
    hide Logged, LoggedOpen, Encoded, KeyTag, XOpen, Stretch, LE;
    forall key, n, m ensures s.xopen(key, n, s.xseal(key, n, m)) == Some(m) {
      XOpens(inputs, key, key, m);
    }
    forall x, y, n, m | x in inputs && y in inputs && x != y
      ensures s.xopen(Derive(s, y), n, s.xseal(Derive(s, x), n, m)).None?
    {
      XOpens(inputs, Encoded(x), Encoded(y), m);
      KeyTagsDistinct(inputs, x, y);
    }
    forall x, y | x in inputs && y in inputs && Derive(s, x) == Derive(s, y) ensures x == y {
      EncodedInjective(x, y);
    }
  }

  lemma SuiteSized(s: Suite, passwords: seq<Bytes>, keyfiles: seq<Bytes>, inputs: seq<KdfInput>, dk: Bytes,
                   saves: seq<Save>)
    requires s == IdealSuite(passwords, keyfiles, inputs, dk, saves)
    ensures Sized(s) && ArgonUniform(s)
  {
    hide Logged, LoggedOpen, Encoded, KeyTag, XOpen, Stretch, LE;
  }

  /** No two passwords in play, and no two costs, give the same key material. */
  lemma ArgonIdeal(s: Suite, passwords: seq<Bytes>, keyfiles: seq<Bytes>, inputs: seq<KdfInput>, dk: Bytes,
                   saves: seq<Save>)
    requires s == IdealSuite(passwords, keyfiles, inputs, dk, saves) && |passwords| <= MANY
    ensures forall p, q, salt, c, d ::
      (p in passwords && q in passwords && s.argon2id(p, salt, c) == s.argon2id(q, salt, d)) ==> p == q && c == d
  {
    hide Logged, LoggedOpen, Encoded, KeyTag, XOpen, Stretch, LE;
    forall p, q, salt, c, d | p in passwords && q in passwords && s.argon2id(p, salt, c) == s.argon2id(q, salt, d)
      ensures p == q && c == d
    {
      assert Stretch(passwords, p, c) == Stretch(passwords, q, d);
      StretchInjective(passwords, p, c, q, d);
    }
  }

  /** No two keyfiles in play have the same digest. */
  lemma DigestsIdeal(s: Suite, passwords: seq<Bytes>, keyfiles: seq<Bytes>, inputs: seq<KdfInput>, dk: Bytes,
                     saves: seq<Save>)
    requires s == IdealSuite(passwords, keyfiles, inputs, dk, saves) && |keyfiles| <= MANY
    ensures forall f, g :: (f in keyfiles && g in keyfiles && s.sha256(f) == s.sha256(g)) ==> f == g
  {
    hide Logged, LoggedOpen, Encoded, KeyTag, XOpen, Stretch, LE, Pow256;
    Pow256Grows(TAG_LEN, 32);
    forall f, g | f in keyfiles && g in keyfiles && s.sha256(f) == s.sha256(g) ensures f == g {
      Numbered(keyfiles, f, g, 32);
    }
  }

  /** Output sizes and ideal wrapping hold, whatever lists of passwords, keyfiles and inputs are in play. */
  lemma IdealWrappingExists(passwords: seq<Bytes>, keyfiles: seq<Bytes>, inputs: seq<KdfInput>, dk: Bytes,
                            saves: seq<Save>) returns (s: Suite)
    requires |passwords| <= MANY && |keyfiles| <= MANY && |inputs| <= MANY
    ensures s == IdealSuite(passwords, keyfiles, inputs, dk, saves)
    ensures Sized(s) && Ideal(s, UniverseOf(passwords, keyfiles, inputs))
  {
    s := IdealSuite(passwords, keyfiles, inputs, dk, saves);
    SuiteSized(s, passwords, keyfiles, inputs, dk, saves);
    KeysIdeal(s, passwords, keyfiles, inputs, dk, saves);
    ArgonIdeal(s, passwords, keyfiles, inputs, dk, saves);
    DigestsIdeal(s, passwords, keyfiles, inputs, dk, saves);
    SameNfc(s, passwords, keyfiles, inputs, dk, saves);
    hide IdealSuite, Derive, Unwraps, ArgonUniform, Sized;
  }

  lemma SameNfc(s: Suite, passwords: seq<Bytes>, keyfiles: seq<Bytes>, inputs: seq<KdfInput>, dk: Bytes,
                saves: seq<Save>)
    requires s == IdealSuite(passwords, keyfiles, inputs, dk, saves)
    ensures forall b :: s.nfc(b) == b
    ensures forall pw, salt, c :: s.argon2id(pw, salt, c).Ok?
  {
  }

  // ---------------------------------------------------------------- ideal MACs and AEAD, for any number of saves

  /** Saves that were given the same seed wrote the same plaintext: only a header-only save keeps its seeds. */
  ghost predicate SeedsApart(saves: seq<Save>) {
    forall i, j {:trigger saves[i], saves[j]} :: 0 <= i < |saves| && 0 <= j < |saves|
      && (saves[i].header.masterSeed == saves[j].header.masterSeed || saves[i].header.noncePrefix
          == saves[j].header.noncePrefix)
      ==> saves[i].plaintext == saves[j].plaintext
  }

  /** Suites that seal alike give the same ciphertext. */
  lemma {:induction false} SealedAlike(s: Suite, key: Bytes, t: Suite, key': Bytes, pt: Bytes, i: nat)
    requires forall n, p :: s.seal(key, n, p) == t.seal(key', n, p)
    requires i <= Stream.LastIndex(pt)
    ensures Stream.SealedFrom(s, key, pt, i) == Stream.SealedFrom(t, key', pt, i)
    decreases Stream.LastIndex(pt) - i
  {
    if i < Stream.LastIndex(pt) {
      SealedAlike(s, key, t, key', pt, i + 1);
    }
  }

  lemma BlocksAlike(s: Suite, key: Bytes, pt: Bytes)
    requires forall n, p :: s.seal(key, n, p) == p + Zeros(TAG_LEN)
    ensures BlockStream.Payloads(Stream.Sealed(s, key, pt), BlockStream.BLOCK_SIZE) == BlocksOf(pt)
  {
    SealedAlike(s, key, Plain(), [], pt, 0);
  }

  lemma BlocksCount(s: Suite, key: Bytes, pt: Bytes)
    requires Sized(s) && |pt| <= MAX_PLAINTEXT && forall n, p :: s.seal(key, n, p) == p + Zeros(TAG_LEN)
    ensures |BlocksOf(pt)| <= U64_MAX
  {
    BlocksAlike(s, key, pt);
    CiphertextFits(s, key, pt);
    BlockStream.PayloadsWellFormed(Stream.Sealed(s, key, pt), BlockStream.BLOCK_SIZE);
  }

  lemma LoggedChunkOpens(dk: Bytes, saves: seq<Save>, i: nat, n: Bytes, p: Bytes)
    requires i < |saves| && (n, p) in Stream.RunLog(saves[i].plaintext)
    ensures LoggedOpen(dk, saves, Encoded(KdfInput(dk, saves[i].header.noncePrefix, Stream.PAYLOAD_INFO)), n,
      p + Zeros(TAG_LEN))
            == Some(p)
  {
    hide Encoded, Stream.RunLog;
    var c := p + Zeros(TAG_LEN);
    assert c[..|c| - TAG_LEN] == p && c[|c| - TAG_LEN..] == Zeros(TAG_LEN);
  }

  lemma OpensItsRun(s: Suite, passwords: seq<Bytes>, keyfiles: seq<Bytes>, inputs: seq<KdfInput>, dk: Bytes,
                    saves: seq<Save>, i: nat)
    requires i < |saves| && s == IdealSuite(passwords, keyfiles, inputs, dk, saves)
    ensures Stream.OpensOwn(s, KeysOf(saves[i].header, dk).Aead(s), saves[i].plaintext)
  {
    hide Stream.ChunkNonce, Stream.Chunk, Logged, LoggedOpen, Encoded, KeyTag, Stretch, LE;
    var pt := saves[i].plaintext;
    var key, log := KeysOf(saves[i].header, dk).Aead(s), Stream.RunLog(pt);
    forall j: nat | j <= Stream.LastIndex(pt)
      ensures s.open(key, Stream.NonceOf(pt, j), Stream.SealedChunk(s, key, pt, j)) == Some(Stream.Chunk(pt, j))
    {
      assert log[j] == (Stream.NonceOf(pt, j), Stream.Chunk(pt, j));
      LoggedChunkOpens(dk, saves, i, Stream.NonceOf(pt, j), Stream.Chunk(pt, j));
    }
  }

  /** What opens under the payload key of a save is a chunk of that save. */
  lemma OwnChunksOnly(dk: Bytes, saves: seq<Save>, i: nat, nonce: Bytes, c: Bytes)
    requires i < |saves| && SeedsApart(saves)
    requires LoggedOpen(dk, saves, Encoded(KdfInput(dk, saves[i].header.noncePrefix, Stream.PAYLOAD_INFO)), nonce,
      c).Some?
    ensures |c| >= TAG_LEN && c == c[..|c| - TAG_LEN] + Zeros(TAG_LEN)
    ensures (nonce, c[..|c| - TAG_LEN]) in Stream.RunLog(saves[i].plaintext)
  {
    hide Encoded, Stream.RunLog;
    var x := KdfInput(dk, saves[i].header.noncePrefix, Stream.PAYLOAD_INFO);
    var k :| 0 <= k < |saves| && Encoded(x) == Encoded(KdfInput(dk, saves[k].header.noncePrefix, Stream.PAYLOAD_INFO))
             && (nonce, c[..|c| - TAG_LEN]) in Stream.RunLog(saves[k].plaintext);
    EncodedInjective(x, KdfInput(dk, saves[k].header.noncePrefix, Stream.PAYLOAD_INFO));
    assert c == c[..|c| - TAG_LEN] + c[|c| - TAG_LEN..];
  }

  lemma OpensOnlyItsRun(s: Suite, passwords: seq<Bytes>, keyfiles: seq<Bytes>, inputs: seq<KdfInput>, dk: Bytes,
                        saves: seq<Save>, i: nat)
    requires i < |saves| && SeedsApart(saves) && s == IdealSuite(passwords, keyfiles, inputs, dk, saves)
    ensures Stream.OpensOnly(s, KeysOf(saves[i].header, dk).Aead(s), Stream.RunLog(saves[i].plaintext))
  {
    hide SeedsApart, Logged, LoggedOpen, Encoded, KeyTag, Stretch, LE, Stream.RunLog;
    var key, log := KeysOf(saves[i].header, dk).Aead(s), Stream.RunLog(saves[i].plaintext);
    forall nonce, c | s.open(key, nonce, c).Some?
      ensures exists j :: 0 <= j < |log| && nonce == log[j].0 && c == s.seal(key, nonce, log[j].1)
    {
      OwnChunksOnly(dk, saves, i, nonce, c);
      var j :| 0 <= j < |log| && log[j] == (nonce, c[..|c| - TAG_LEN]);
      assert c == s.seal(key, nonce, log[j].1);
    }
  }

  /** What verifies under a block key of a save is a block of that save. */
  lemma OwnBlocksOnly(dk: Bytes, saves: seq<Save>, i: nat, at: nat, m: Bytes)
    requires i < |saves| && SeedsApart(saves)
    requires Logged(dk, saves, Encoded(KdfInput(dk, LE(at, 8) + saves[i].header.masterSeed,
      BlockStream.BLOCK_HMAC_INFO)), m)
    ensures IsBlock(saves[i], m)
  {
    hide Encoded, LE, AuthSpan, BlocksOf;
    var x := KdfInput(dk, LE(at, 8) + saves[i].header.masterSeed, BlockStream.BLOCK_HMAC_INFO);
    if Encoded(x) == Encoded(KdfInput(dk, [], HEADER_HMAC_INFO)) {
      EncodedInjective(x, KdfInput(dk, [], HEADER_HMAC_INFO));
    }
    var k :| 0 <= k < |saves| && IsBlockKey(dk, saves[k], Encoded(x)) && IsBlock(saves[k], m);
    var at' :| Encoded(x) == Encoded(KdfInput(dk, LE(at', 8) + saves[k].header.masterSeed,
        BlockStream.BLOCK_HMAC_INFO));
    EncodedInjective(x, KdfInput(dk, LE(at', 8) + saves[k].header.masterSeed, BlockStream.BLOCK_HMAC_INFO));
    SplitUnique(LE(at, 8), saves[i].header.masterSeed, LE(at', 8), saves[k].header.masterSeed);
  }

  lemma VerifiesItsBlocks(passwords: seq<Bytes>, keyfiles: seq<Bytes>, inputs: seq<KdfInput>, dk: Bytes,
                          saves: seq<Save>, i: nat)
    requires i < |saves| && SeedsApart(saves)
    ensures var s, keys := IdealSuite(passwords, keyfiles, inputs, dk, saves), KeysOf(saves[i].header, dk).Mac();
      && BlockStream.VerifiesOwn(s, keys, BlocksOf(saves[i].plaintext))
      && BlockStream.VerifiesOnly(s, keys, BlocksOf(saves[i].plaintext))
  {
    hide Encoded, LE, AuthSpan, BlocksOf, LoggedOpen, KeyTag, Stretch, BlockStream.MacInput, Logged;
    var s, keys := IdealSuite(passwords, keyfiles, inputs, dk, saves), KeysOf(saves[i].header, dk).Mac();
    var blocks := BlocksOf(saves[i].plaintext);
    forall j: nat | j < |blocks|
      ensures s.hmacVerify(BlockStream.BlockKey(s, keys, j), BlockStream.MacInput(j, blocks[j]),
                           BlockStream.BlockTag(s, keys, j, blocks[j]))
    {
      OwnBlockLogged(dk, saves, i, j);
    }
    forall at: nat, m: Bytes, t: Bytes | s.hmacVerify(BlockStream.BlockKey(s, keys, at), m, t)
      ensures exists j ::
        0 <= j < |blocks| && m == BlockStream.MacInput(j, blocks[j]) && t == BlockStream.BlockTag(s, keys, j, blocks[j])
    {
      OwnBlocksOnly(dk, saves, i, at, m);
      var j :| 0 <= j < |blocks| && m == BlockStream.MacInput(j, blocks[j]);
      assert t == BlockStream.BlockTag(s, keys, j, blocks[j]);
    }
  }

  lemma OwnBlockLogged(dk: Bytes, saves: seq<Save>, i: nat, j: nat)
    requires i < |saves| && j < |BlocksOf(saves[i].plaintext)|
    ensures Logged(dk, saves, Encoded(KdfInput(dk, LE(j, 8) + saves[i].header.masterSeed, BlockStream.BLOCK_HMAC_INFO)),
                   BlockStream.MacInput(j, BlocksOf(saves[i].plaintext)[j]))
  {
    hide Encoded, LE, AuthSpan, BlocksOf, BlockStream.MacInput;
    assert IsBlockKey(dk, saves[i],
      Encoded(KdfInput(dk, LE(j, 8) + saves[i].header.masterSeed, BlockStream.BLOCK_HMAC_INFO)));
    assert IsBlock(saves[i], BlockStream.MacInput(j, BlocksOf(saves[i].plaintext)[j]));
  }

  /** The tags show the index, so no two blocks of a save have the same one. */
  lemma ShownTagsDistinct(s: Suite, k: BlockStream.Keys, payloads: seq<Bytes>)
    requires |payloads| <= U64_MAX && forall key, m :: s.hmac(key, m) == ShownTag(m)
    ensures BlockStream.TagsDistinct(s, k, payloads)
  {
    forall i: nat, j: nat | i < j < |payloads|
      ensures BlockStream.BlockTag(s, k, i, payloads[i]) != BlockStream.BlockTag(s, k, j, payloads[j])
    {
      var a, b := BlockStream.MacInput(i, payloads[i]), BlockStream.MacInput(j, payloads[j]);
      Pow256Widths();
      LERoundTrip(i, 8);
      LERoundTrip(j, 8);
      assert a[..8] == LE(i, 8) && b[..8] == LE(j, 8);
      assert ShownTag(a)[..8] == a[..8] && ShownTag(b)[..8] == b[..8];
    }
  }

  lemma HeadersAlone(s: Suite, passwords: seq<Bytes>, keyfiles: seq<Bytes>, inputs: seq<KdfInput>, dk: Bytes,
                     saves: seq<Save>)
    requires s == IdealSuite(passwords, keyfiles, inputs, dk, saves)
    requires forall i {:trigger saves[i]} :: 0 <= i < |saves| ==> SealedHeader(s, saves[i].header, dk)
    ensures HeaderVerifiesOnly(s, saves, dk)
    ensures forall i {:trigger saves[i]} :: 0 <= i < |saves| ==> VerifyHmac(s, saves[i].header, dk).Ok?
  {
    hide Encoded, LE, AuthSpan, BlocksOf, LoggedOpen, KeyTag, Stretch, IsBlock;
    forall i | 0 <= i < |saves| ensures saves[i].header.hmac == ShownTag(AuthSpan(saves[i].header)) {
    }
    forall m: Bytes, t: Bytes | s.hmacVerify(HmacKey(s, dk), m, t)
      ensures exists i {:trigger saves[i]} ::
        0 <= i < |saves| && m == AuthSpan(saves[i].header) && t == saves[i].header.hmac
    {
      var x := KdfInput(dk, [], HEADER_HMAC_INFO);
      assert HmacKey(s, dk) == Encoded(x);
      forall at: nat, seed: Bytes | Encoded(x) == Encoded(KdfInput(dk, LE(at, 8) + seed, BlockStream.BLOCK_HMAC_INFO))
        ensures false
      {
        EncodedInjective(x, KdfInput(dk, LE(at, 8) + seed, BlockStream.BLOCK_HMAC_INFO));
      }
    }
  }

  /**
   For any number of saves under one data key, and whatever secrets are in play: output sizes, ideal
   wrapping, the ideal MAC of every header and block, distinct block tags and the ideal AEAD of every body
   hold together of one suite.
   */
  lemma IdealSavesExist(passwords: seq<Bytes>, keyfiles: seq<Bytes>, inputs: seq<KdfInput>, dk: Bytes, saves: seq<Save>)
    returns (s: Suite)
    requires |passwords| <= MANY && |keyfiles| <= MANY && |inputs| <= MANY && SeedsApart(saves)
    requires forall i {:trigger saves[i]} :: 0 <= i < |saves| ==>
      |saves[i].plaintext| <= MAX_PLAINTEXT
      && SealedHeader(IdealSuite(passwords, keyfiles, inputs, dk, []), saves[i].header, dk)
    ensures s == IdealSuite(passwords, keyfiles, inputs, dk, saves)
    ensures Sized(s) && Ideal(s, UniverseOf(passwords, keyfiles, inputs))
    ensures HonestSaves(s, saves, dk) && HeaderVerifiesOnly(s, saves, dk)
    ensures forall i {:trigger saves[i]} :: 0 <= i < |saves| ==>
      var keys := KeysOf(saves[i].header, dk);
      && Stream.OpensOnly(s, keys.Aead(s), Stream.RunLog(saves[i].plaintext))
      && BlockStream.TagsDistinct(s, keys.Mac(), BlocksOf(saves[i].plaintext))
  {
    s := IdealWrappingExists(passwords, keyfiles, inputs, dk, saves);
    forall i | 0 <= i < |saves| ensures SealedHeader(s, saves[i].header, dk) {
      SealAlike(passwords, keyfiles, inputs, dk, saves, saves[i].header);
    }
    HeadersAlone(s, passwords, keyfiles, inputs, dk, saves);
    hide Ideal, Sized, HonestSave, HeaderVerifiesOnly, SealedHeader, VerifyHmac, Stream.OpensOnly,
      BlockStream.TagsDistinct;
    forall i | 0 <= i < |saves|
      ensures HonestSave(s, saves[i], dk)
      ensures Stream.OpensOnly(s, KeysOf(saves[i].header, dk).Aead(s), Stream.RunLog(saves[i].plaintext))
      ensures BlockStream.TagsDistinct(s, KeysOf(saves[i].header, dk).Mac(), BlocksOf(saves[i].plaintext))
    {
      SaveIdeal(s, passwords, keyfiles, inputs, dk, saves, i);
    }
  }

  lemma SaveIdeal(s: Suite, passwords: seq<Bytes>, keyfiles: seq<Bytes>, inputs: seq<KdfInput>, dk: Bytes,
      saves: seq<Save>,
                  i: nat)
    requires s == IdealSuite(passwords, keyfiles, inputs, dk, saves) && Sized(s) && SeedsApart(saves) && i < |saves|
    requires SealedHeader(s, saves[i].header, dk) && VerifyHmac(s, saves[i].header, dk).Ok?
    requires |saves[i].plaintext| <= MAX_PLAINTEXT
    ensures HonestSave(s, saves[i], dk)
    ensures Stream.OpensOnly(s, KeysOf(saves[i].header, dk).Aead(s), Stream.RunLog(saves[i].plaintext))
    ensures BlockStream.TagsDistinct(s, KeysOf(saves[i].header, dk).Mac(), BlocksOf(saves[i].plaintext))
  {
    hide Sized, SeedsApart, Stream.OpensOnly, Stream.OpensOwn, BlockStream.TagsDistinct, BlockStream.VerifiesOwn,
      VerifyHmac,
      BlockStream.VerifiesOnly, SealedHeader, BlocksOf, Logged, LoggedOpen, Stream.RunLog, Encoded, KeyTag, XOpen,
          Stretch;
    var keys, pt := KeysOf(saves[i].header, dk), saves[i].plaintext;
    OpensItsRun(s, passwords, keyfiles, inputs, dk, saves, i);
    OpensOnlyItsRun(s, passwords, keyfiles, inputs, dk, saves, i);
    VerifiesItsBlocks(passwords, keyfiles, inputs, dk, saves, i);
    BlocksAlike(s, keys.Aead(s), pt);
    BlocksCount(s, keys.Aead(s), pt);
    ShownTagsDistinct(s, keys.Mac(), BlocksOf(pt));
  }

  lemma SuiteStream(s: Suite, passwords: seq<Bytes>, keyfiles: seq<Bytes>, inputs: seq<KdfInput>, dk: Bytes,
                    saves: seq<Save>)
    requires s == IdealSuite(passwords, keyfiles, inputs, dk, saves)
    ensures SameStream(s, Plain()) && forall b :: s.utf8(b)
  {
  }

  /** How a header is sealed does not depend on the log of saves. */
  lemma SealAlike(passwords: seq<Bytes>, keyfiles: seq<Bytes>, inputs: seq<KdfInput>, dk: Bytes, saves: seq<Save>,
      h: Header)
    ensures Seal(IdealSuite(passwords, keyfiles, inputs, dk, saves), h, dk)
            == Seal(IdealSuite(passwords, keyfiles, inputs, dk, []), h, dk)
  {
  }

  // ---------------------------------------------------------------- a vault that is saved and opened

  /** What one save draws and writes. */
  datatype SaveDraw = SaveDraw(masterSeed: Bytes, noncePrefix: Bytes, payload: Payloads.Payload)

  ghost predicate FreshDraws(draws: seq<SaveDraw>) {
    && (forall i {:trigger draws[i]} :: 0 <= i < |draws| ==>
          && |draws[i].masterSeed| == 32 && |draws[i].noncePrefix| == 16
          && Payloads.Typed(Plain(), draws[i].payload) && Payloads.Countable(draws[i].payload)
          && |Written(Plain(), draws[i].payload)| <= MAX_PLAINTEXT)
    && (forall i, j {:trigger draws[i], draws[j]} :: 0 <= i < j < |draws| ==>
          draws[i].masterSeed != draws[j].masterSeed && draws[i].noncePrefix != draws[j].noncePrefix)
  }

  /** The vault's saves: one header after another under fresh seeds, the same stanzas throughout. */
  function SavesOf(s: Suite, k: Ring, draws: seq<SaveDraw>): seq<Save> {
    seq(|draws|, i requires 0 <= i < |draws| =>
      Save(Reseed(s, k, draws[i].masterSeed, draws[i].noncePrefix).0.header, Written(Plain(), draws[i].payload)))
  }

  function PayloadsOf(draws: seq<SaveDraw>): seq<Payloads.Payload> {
    seq(|draws|, i requires 0 <= i < |draws| => draws[i].payload)
  }

  // Suites with the same key stream write the same payloads.

  ghost predicate SameStream(s: Suite, t: Suite) { forall key, at :: s.keystream(key, at) == t.keystream(key, at) }

  lemma MaskedAlike(s: Suite, t: Suite, key: Bytes, offset: nat, data: Bytes)
    requires SameStream(s, t)
    ensures Entries.Masked(s, key, offset, data) == Entries.Masked(t, key, offset, data)
  {
    forall i | 0 <= i < |data|
      ensures Entries.MaskByte(s, key, offset + i, data[i]) == Entries.MaskByte(t, key, offset + i, data[i])
    {
    }
  }

  lemma ExposedAlike(s: Suite, t: Suite, p: Entries.Protected)
    requires SameStream(s, t)
    ensures p.Expose(s) == p.Expose(t)
  {
    if p.Encrypted? {
      MaskedAlike(s, t, p.key, p.offset, p.ct);
    }
  }

  lemma SecretAlike(s: Suite, t: Suite, p: Entries.Protected, key: Bytes, offset: nat)
    requires SameStream(s, t)
    ensures Entries.Masked(s, key, offset, p.Expose(s)) == Entries.Masked(t, key, offset, p.Expose(t))
  {
    ExposedAlike(s, t, p);
    MaskedAlike(s, t, key, offset, p.Expose(s));
  }

  lemma {:induction false} CustomAlike(s: Suite, t: Suite, fields: seq<Entries.CustomField>, key: Bytes, offset: nat)
    requires SameStream(s, t)
    ensures Entries.CustomItems(s, fields, key, offset) == Entries.CustomItems(t, fields, key, offset)
    decreases |fields|
  {
    hide SameStream, Entries.Masked, Entries.Protected.Expose;
    if fields != [] {
      CustomAlike(s, t, fields[1..], key, offset + Entries.SecretOf(fields[0]));
      if fields[0].value.Secret? {
        SecretAlike(s, t, fields[0].value.secret, key, offset);
      }
    }
  }

  lemma EntryAlike(s: Suite, t: Suite, e: Entries.Entry, key: Bytes, offset: nat)
    requires SameStream(s, t)
    ensures Entries.EntryBytes(s, e, key, offset) == Entries.EntryBytes(t, e, key, offset)
  {
    hide SameStream, Entries.Masked, Entries.Protected.Expose, Entries.CustomItems;
    var otpAt := offset + e.password.Len();
    SecretAlike(s, t, e.password, key, offset);
    if e.otpSecret.Some? {
      SecretAlike(s, t, e.otpSecret.value, key, otpAt);
    }
    CustomAlike(s, t, e.customFields, key, otpAt + Entries.OtpLen(e));
  }

  lemma {:induction false} EntriesAlike(s: Suite, t: Suite, entries: seq<Entries.Entry>, key: Bytes, offset: nat)
    requires SameStream(s, t)
    ensures Payloads.EntryItems(s, entries, key, offset) == Payloads.EntryItems(t, entries, key, offset)
    decreases |entries|
  {
    hide SameStream, Entries.EntryBytes;
    if entries != [] {
      EntryAlike(s, t, entries[0], key, offset);
      EntriesAlike(s, t, entries[1..], key, offset + Entries.SecretLen(entries[0]));
    }
  }

  lemma WrittenAlike(s: Suite, t: Suite, p: Payloads.Payload)
    requires SameStream(s, t)
    ensures Written(s, p) == Written(t, p)
  {
    hide SameStream;
    EntriesAlike(s, t, p.entries, p.innerKey, 0);
  }

  lemma TypedAlike(s: Suite, p: Payloads.Payload)
    requires Payloads.Typed(Plain(), p) && forall b :: s.utf8(b)
    ensures Payloads.Typed(s, p)
  {
  }

  lemma SavesSealed(s: Suite, k: Ring, draws: seq<SaveDraw>)
    requires Sized(s) && Inv(s, k) && FreshDraws(draws)
    ensures SeedsApart(SavesOf(s, k, draws))
    ensures forall i {:trigger SavesOf(s, k, draws)[i]} :: 0 <= i < |draws| ==>
      && SealedHeader(s, SavesOf(s, k, draws)[i].header, k.dataKey)
      && SavesOf(s, k, draws)[i].header.magic == k.header.magic
  {
    hide Inv, AuthSpan, Encodable, KindOf, Written, Payloads.Typed, Payloads.Countable, BlocksOf;
    var saves := SavesOf(s, k, draws);
    forall i | 0 <= i < |draws|
      ensures SealedHeader(s, saves[i].header, k.dataKey) && saves[i].header.magic == k.header.magic
    {
      ReseedKeeps(s, k, draws[i].masterSeed, draws[i].noncePrefix);
      InvEncodable(s, Reseed(s, k, draws[i].masterSeed, draws[i].noncePrefix).0);
      SealIsStable(s, k.header.(masterSeed := draws[i].masterSeed, noncePrefix := draws[i].noncePrefix), k.dataKey);
    }
    forall i, j | 0 <= i < |saves| && 0 <= j < |saves|
      && (saves[i].header.masterSeed == saves[j].header.masterSeed || saves[i].header.noncePrefix
          == saves[j].header.noncePrefix)
      ensures saves[i].plaintext == saves[j].plaintext
    {
      assert draws[i].masterSeed == saves[i].header.masterSeed && draws[j].masterSeed == saves[j].header.masterSeed;
    }
  }

  lemma InvEncodable(s: Suite, k: Ring)
    requires Inv(s, k)
    ensures Encodable(k.header)
  {
  }

  /** Creating and saving do not depend on the log of saves. */
  lemma CreateAlike(fields: Header, dk: Bytes, pw: Bytes, nonce: Bytes, saves: seq<Save>, draws: seq<SaveDraw>)
    ensures var s, t := IdealSuite([], [], [], dk, saves), IdealSuite([], [], [], dk, []);
      && Create(s, fields, dk, pw, Some(nonce)) == Create(t, fields, dk, pw, Some(nonce))
      && Create(s, fields, dk, pw, Some(nonce)).Ok?
      && var k := Create(s, fields, dk, pw, Some(nonce)).value;
         SavesOf(s, k, draws) == SavesOf(t, k, draws)
  {
    hide Logged, LoggedOpen, Encoded, KeyTag, Stretch, AuthSpan;
    var s, t := IdealSuite([], [], [], dk, saves), IdealSuite([], [], [], dk, []);
    var k := Create(s, fields, dk, pw, Some(nonce)).value;
    forall i | 0 <= i < |draws| ensures SavesOf(s, k, draws)[i] == SavesOf(t, k, draws)[i] {
      SealAlike([], [], [], dk, saves,
          k.header.(masterSeed := draws[i].masterSeed, noncePrefix := draws[i].noncePrefix));
    }
  }

  lemma AllPayloadSaves(s: Suite, k: Ring, draws: seq<SaveDraw>)
    requires SameStream(s, Plain()) && (forall b :: s.utf8(b)) && FreshDraws(draws)
    ensures PayloadSaves(s, SavesOf(s, k, draws), PayloadsOf(draws))
  {
    hide SameStream, Payloads.Typed, Payloads.Countable, Written, Reseed;
    forall i | 0 <= i < |draws|
      ensures Payloads.Typed(s, draws[i].payload) && Written(s, draws[i].payload) == Written(Plain(), draws[i].payload)
    {
      WrittenAlike(s, Plain(), draws[i].payload);
      TypedAlike(s, draws[i].payload);
    }
  }

  lemma EachSaveOpens(s: Suite, k: Ring, pw: Bytes, draws: seq<SaveDraw>, i: nat)
    requires Sized(s) && Unwraps(s) && Inv(s, k) && KindOf(k.header.magic) == Some(Vault) && i < |draws|
    requires k.owners == [Owner(Password(pw), k.header.costs)] && FreshDraws(draws)
    requires HonestSaves(s, SavesOf(s, k, draws), k.dataKey) && HeaderVerifiesOnly(s, SavesOf(s, k, draws), k.dataKey)
    requires SameStream(s, Plain()) && forall b :: s.utf8(b)
    requires Payloads.Fits(draws[i].payload)
    ensures PayloadSaves(s, SavesOf(s, k, draws), PayloadsOf(draws))
    ensures var save := SavesOf(s, k, draws)[i];
      OpenInner(s, FileOf(s, save, k.dataKey), pw, None, None)
      == Ok(OpenVault(save.header, k.dataKey, Payloads.Resealed(s, draws[i].payload)))
  {
    hide Inv, AuthSpan, Encodable, HonestSave, FileOf, OpenInner, Sized, HeaderVerifiesOnly, UnwrapDataKey, SameStream,
      Payloads.Typed, Payloads.Countable, Payloads.Fits, Payloads.Resealed, Written;
    var saves := SavesOf(s, k, draws);
    AllPayloadSaves(s, k, draws);
    var now := Reseed(s, k, draws[i].masterSeed, draws[i].noncePrefix).0;
    ReseedKeeps(s, k, draws[i].masterSeed, draws[i].noncePrefix);
    var owner := NeverLockedOut(s, now);
    InvOwners(s, now);
    assert owner == pw && saves[i].header == now.header && saves[i].header.magic == k.header.magic;
    OnlySavedOpens(s, saves, PayloadsOf(draws), k.dataKey, pw, None, None, FileOf(s, saves[i], k.dataKey));
  }

  /**
   For every new vault and any number of saves of it there is a suite that meets every hypothesis of the
   authenticity theorem and in which the owner's password opens every one of the saved files.
   */
  lemma SavedVaultExists(fields: Header, dk: Bytes, pw: Bytes, nonce: Bytes, draws: seq<SaveDraw>)
    returns (s: Suite, saves: seq<Save>)
    requires Encodable(fields) && KindOf(fields.magic) == Some(Vault) && |dk| == DATA_KEY_LEN
      && |nonce| == WRAP_NONCE_LEN
    requires FreshDraws(draws)
    ensures Sized(s) && Unwraps(s) && HonestSaves(s, saves, dk) && HeaderVerifiesOnly(s, saves, dk)
    ensures PayloadSaves(s, saves, PayloadsOf(draws))
    ensures forall i {:trigger saves[i]} :: 0 <= i < |draws| && Payloads.Fits(draws[i].payload) ==>
      OpenInner(s, FileOf(s, saves[i], dk), pw, None, None)
      == Ok(OpenVault(saves[i].header, dk, Payloads.Resealed(s, draws[i].payload)))
  {
    hide Payloads.Typed, Payloads.Countable, Payloads.Fits, Payloads.Resealed, Written, SameStream;
    hide Inv, AuthSpan, Encodable, HonestSaves, FileOf, OpenInner, HeaderVerifiesOnly, IdealSuite, Seal, KindOf,
      SealedHeader;
    var base := IdealWrappingExists([], [], [], dk, []);
    CreateAlike(fields, dk, pw, nonce, [], draws);
    var k := Create(base, fields, dk, pw, Some(nonce)).value;
    CreateEstablishes(base, fields, dk, pw, Some(nonce));
    SavesSealed(base, k, draws);
    saves := SavesOf(base, k, draws);
    s := IdealSavesExist([], [], [], dk, saves);
    CreateAlike(fields, dk, pw, nonce, saves, draws);
    CreateEstablishes(s, fields, dk, pw, Some(nonce));
    SuiteStream(s, [], [], [], dk, saves);
    AllPayloadSaves(s, k, draws);
    forall i | 0 <= i < |draws| && Payloads.Fits(draws[i].payload)
      ensures OpenInner(s, FileOf(s, saves[i], dk), pw, None, None)
           == Ok(OpenVault(saves[i].header, dk, Payloads.Resealed(s, draws[i].payload)))
    {
      EachSaveOpens(s, k, pw, draws, i);
    }
  }

  // ---------------------------------------------------------------- a vault with two factors

  lemma {:induction false} SteadyKeepsParams(s: Suite, k: Ring, h: Habit, steps: seq<Step>)
    requires Sized(s) && Inv(s, k)
    requires forall i :: 0 <= i < |steps| ==> steps[i].Typed(s) && Steady(steps[i], h)
    ensures Run(s, k, steps).Params() == k.Params() && Run(s, k, steps).header.costs == k.header.costs
    decreases |steps|
  {
    hide Inv, RewrapFrom, WrapYubiKey, AuthSpan;
    if steps != [] {
      InvOwners(s, k);
      StepKeeps(s, k, steps[0]);
      SteadyKeepsParams(s, Apply(s, k, steps[0]).0, h, steps[1..]);
    }
  }

  /** Any secrets can be put in play: there are a suite and a universe that speak of them all. */
  lemma AllInPlay(passwords: seq<Bytes>, keyfiles: seq<Bytes>, secrets: seq<Secret>, p: Params)
    returns (s: Suite, u: Universe)
    requires |passwords| <= MANY && |keyfiles| <= MANY && |secrets| <= MANY
    requires forall x <- secrets :: x.UsesPassword() ==> x.pw in passwords
    requires forall x <- secrets :: x.PasswordAndKeyfile? ==> x.keyfile in keyfiles
    ensures Sized(s) && Ideal(s, u) && (forall pw, salt, c :: s.argon2id(pw, salt, c).Ok?) && forall b :: s.nfc(b) == b
    ensures forall x <- secrets :: Among(s, u, x, p)
  {
    hide Logged, LoggedOpen, Encoded, KeyTag, Stretch, LE;
    var base := IdealSuite(passwords, keyfiles, [], [], []);
    var inputs := seq(|secrets|, i requires 0 <= i < |secrets| => InputOf(base, secrets[i], p).value);
    s := IdealWrappingExists(passwords, keyfiles, inputs, [], []);
    u := UniverseOf(passwords, keyfiles, inputs);
    hide Ideal, Sized;
    forall x <- secrets ensures Among(s, u, x, p) {
      var i :| 0 <= i < |secrets| && secrets[i] == x;
      assert InputOf(s, x, p) == InputOf(base, x, p);
      assert inputs[i] == InputOf(s, x, p).value;
    }
  }

  /**
   For every new vault, every keyfile enrolled in it, every steady run after that and every attempt, right
   or wrong, there is a suite and a universe that meet all the hypotheses of the keyfile theorem, so its
   conclusion holds there: the attempt opens the vault exactly when both factors are right.
   */
  lemma KeyfileLawsHold(fields: Header, dk: Bytes, pw0: Bytes, file0: Bytes, code: Bytes, n0: Bytes, n1: Bytes,
      n2: Bytes,
                        steps: seq<Step>, pw: Bytes, file: Bytes) returns (s: Suite, u: Universe, now: Ring)
    requires Encodable(fields) && |dk| == DATA_KEY_LEN
    requires |n0| == |n1| == |n2| == WRAP_NONCE_LEN
    requires forall i :: 0 <= i < |steps| ==> steps[i].Typed(Plain()) && Steady(steps[i], WithKeyfile(pw0, file0, code))
    ensures Sized(s) && Ideal(s, u)
    ensures Create(s, fields, dk, pw0, Some(n0)).Ok?
    ensures var k := Create(s, fields, dk, pw0, Some(n0)).value;
      && Inv(s, k) && EnrollKeyfile(s, k, pw0, file0, code, Some(n1), Some(n2)).1.Ok?
      && (forall i :: 0 <= i < |steps| ==> steps[i].Typed(s))
      && Inv(s, EnrollKeyfile(s, k, pw0, file0, code, Some(n1), Some(n2)).0)
      && now == Run(s, EnrollKeyfile(s, k, pw0, file0, code, Some(n1), Some(n2)).0, steps)
    ensures Covered(s, u, now) && Among(s, u, PasswordAndKeyfile(pw, file), now.Params())
      && Among(s, u, Password(pw), now.Params())
    ensures UnwrapDataKey(s, now.header, pw, None, Some(file)).Ok? <==> pw == pw0 && file == file0
    ensures UnwrapDataKey(s, now.header, pw, None, None).Ok? <==> pw == code
  {
    hide Inv, AuthSpan, Ideal, Sized, Among, Run, Encodable, Steady;
    var secrets := [PasswordAndKeyfile(pw0, file0), Password(code), PasswordAndKeyfile(pw, file), Password(pw)];
    Pow256Widths();
    Pow256Grows(1, TAG_LEN);
    s, u := AllInPlay([pw0, code, pw], [file0, file], secrets, ParamsOf(fields));
    assert secrets[0] in secrets && secrets[1] in secrets && secrets[2] in secrets && secrets[3] in secrets;
    SteadyTyped(s, steps, WithKeyfile(pw0, file0, code));
    CreateEstablishes(s, fields, dk, pw0, Some(n0));
    var k := Create(s, fields, dk, pw0, Some(n0)).value;
    var start := EnrollKeyfile(s, k, pw0, file0, code, Some(n1), Some(n2)).0;
    EnrollKeyfileEstablishes(s, k, pw0, file0, code, Some(n1), Some(n2));
    now := KeyfileForLife(s, u, k, pw0, file0, code, Some(n1), Some(n2), steps, pw, file);
    SteadyKeepsParams(s, start, WithKeyfile(pw0, file0, code), steps);
    SteadyRunStaysInForce(s, start, WithKeyfile(pw0, file0, code), steps);
    assert now.Params() == ParamsOf(fields) == now.Params().(costs := now.header.costs);
  }

  /** The challenge a save, refresh or rotation may put into the header. */
  function ChallengeOf(step: Step): seq<Bytes> {
    match step
    case DoRefresh(_, _, c, _) => [c]
    case DoRotate(_, _, draws) =>
      if draws != [] && draws[0].challenge.Some? then [draws[0].challenge.value] else []
    case _ => []
  }

  function Challenges(steps: seq<Step>): (r: seq<Bytes>)
    ensures |r| <= |steps|
  {
    if steps == [] then [] else ChallengeOf(steps[0]) + Challenges(steps[1..])
  }

  ghost predicate Asks(k: Ring, asked: Bytes) {
    |k.header.stanzas| > 0 && YubiKeyChallenge(k.header.stanzas[0]) == Ok(asked)
  }

  lemma RefreshAsks(s: Suite, k: Ring, pw: Bytes, response: Bytes, challenge: Bytes, nonce: Option<Bytes>)
    requires Sized(s) && Inv(s, k) && |k.owners| == |k.header.stanzas|
    requires |challenge| == CHALLENGE_LEN && Drawn(nonce, WRAP_NONCE_LEN)
    requires RefreshYubiKey(s, k, pw, response, challenge, nonce).1.Ok?
    ensures Asks(RefreshYubiKey(s, k, pw, response, challenge, nonce).0, challenge)
  {
    InvOwners(s, k);
    hide Inv, WrapYubiKey, YubiKeyChallenge;
    WrapYubiKeyWraps(s, k.dataKey, pw, response, challenge, k.Params(), nonce);
  }

  lemma RotateAsks(s: Suite, k: Ring, h: Habit, newKey: Bytes, opts: RotateOptions, draws: seq<Draw>)
    requires Sized(s) && InForce(s, k, h) && h.WithYubiKey? && opts.recoveryCode.Some? && opts.respond.Some?
    requires |newKey| == DATA_KEY_LEN && DrawsTyped(draws) && Rotate(s, k, Some(newKey), opts, draws).1.Ok?
    ensures draws != [] && draws[0].challenge.Some?
    ensures Asks(Rotate(s, k, Some(newKey), opts, draws).0, draws[0].challenge.value)
  {
    hide Inv, WrapYubiKey, YubiKeyChallenge, RewrapFrom;
    RotatePair(s, k, k.owners[0].secret, h.code, newKey, opts, draws);
    var draw := DrawAt(draws, 0);
    var answer := opts.respond.value(draw.challenge.value);
    WrapYubiKeyWraps(s, newKey, opts.password, answer.value, draw.challenge.value, k.Params(), draw.nonce);
  }

  /** A step keeps the stored challenge or puts its own in its place. */
  lemma StepAsks(s: Suite, k: Ring, h: Habit, step: Step, asked: Bytes)
    requires Sized(s) && Inv(s, k) && InForce(s, k, h) && h.WithYubiKey? && Asks(k, asked)
    requires step.Typed(s) && Steady(step, h)
    ensures |k.owners| == |k.header.stanzas|
    ensures exists c :: c in [asked] + ChallengeOf(step) && Asks(Apply(s, k, step).0, c)
  {
    hide Inv, InForce, RefreshYubiKey, Rotate, YubiKeyChallenge;
    InvOwners(s, k);
    assert asked in [asked] + ChallengeOf(step);
    if Apply(s, k, step).1.Err? {
      StepKeeps(s, k, step);
    } else if step.DoRefresh? {
      RefreshAsks(s, k, step.pw, step.response, step.challenge, step.nonce);
      assert step.challenge in [asked] + ChallengeOf(step);
    } else if step.DoRotate? {
      RotateDraws(s, k, step.newKey, step.opts, step.draws);
      RotateAsks(s, k, h, step.newKey.value, step.opts, step.draws);
      assert step.draws[0].challenge.value in [asked] + ChallengeOf(step);
    }
  }

  lemma RotateDraws(s: Suite, k: Ring, newKey: Option<Bytes>, opts: RotateOptions, draws: seq<Draw>)
    requires Rotate(s, k, newKey, opts, draws).1.Ok?
    ensures newKey.Some?
  {
  }

  /** At the end of a run the stored challenge is one of those the run could have put there. */
  lemma {:induction false} RunAsks(s: Suite, k: Ring, h: Habit, steps: seq<Step>, asked: Bytes) returns (now: Bytes)
    requires Sized(s) && Inv(s, k) && InForce(s, k, h) && h.WithYubiKey? && Asks(k, asked)
    requires forall i :: 0 <= i < |steps| ==> steps[i].Typed(s) && Steady(steps[i], h)
    ensures now in [asked] + Challenges(steps) && Asks(Run(s, k, steps), now)
    decreases |steps|
  {
    hide Inv, InForce, Asks, Apply, Steady;
    now := asked;
    if steps != [] {
      StepAsks(s, k, h, steps[0], asked);
      StepKeeps(s, k, steps[0]);
      SteadyStepInForce(s, k, h, steps[0]);
      var c :| c in [asked] + ChallengeOf(steps[0]) && Asks(Apply(s, k, steps[0]).0, c);
      now := RunAsks(s, Apply(s, k, steps[0]).0, h, steps[1..], c);
    }
  }

  lemma SteadyStepInForce(s: Suite, k: Ring, h: Habit, step: Step)
    requires Sized(s) && Inv(s, k) && InForce(s, k, h) && step.Typed(s) && Steady(step, h)
    ensures |k.owners| == |k.header.stanzas| && InForce(s, Apply(s, k, step).0, h)
  {
    hide InForce, Inv;
    InvOwners(s, k);
    StepKeeps(s, k, step);
    SteadyRunStaysInForce(s, k, h, [step]);
    assert Run(s, Apply(s, k, step).0, [step][1..]) == Apply(s, k, step).0;
  }

  /** The password with each answer the device gives to these challenges. */
  function WithAnswers(pw: Bytes, device: Responder, challenges: seq<Bytes>): (r: seq<Secret>)
    ensures |r| <= |challenges|
    ensures forall x <- r :: x.PasswordAndYubiKey? && x.pw == pw
    ensures forall c <- challenges :: device(c).Ok? ==> PasswordAndYubiKey(pw, device(c).value) in r
  {
    if challenges == [] then []
    else
      (match device(challenges[0]) case Ok(answer) => [PasswordAndYubiKey(pw, answer)] case Err(_) => [])
      + WithAnswers(pw, device, challenges[1..])
  }

  lemma AnswersInPlay(pw0: Bytes, device0: Responder, code: Bytes, pw: Bytes, device: Responder, asks: seq<Bytes>,
                      p: Params) returns (s: Suite, u: Universe)
    requires 2 * |asks| + 2 <= MANY
    ensures Sized(s) && Ideal(s, u) && (forall x, salt, c :: s.argon2id(x, salt, c).Ok?) && forall b :: s.nfc(b) == b
    ensures Among(s, u, Password(code), p) && Among(s, u, Password(pw), p)
    ensures forall c <- asks :: device0(c).Ok? ==> Among(s, u, PasswordAndYubiKey(pw0, device0(c).value), p)
    ensures forall c <- asks :: device(c).Ok? ==> Among(s, u, PasswordAndYubiKey(pw, device(c).value), p)
  {
    hide Ideal, Sized, Among;
    var secrets := WithAnswers(pw0, device0, asks) + WithAnswers(pw, device, asks) + [Password(code), Password(pw)];
    Pow256Widths();
    Pow256Grows(1, TAG_LEN);
    s, u := AllInPlay([pw0, code, pw], [], secrets, p);
    assert Password(code) in secrets && Password(pw) in secrets;
  }

  lemma NewYubiKeyVault(s: Suite, fields: Header, dk: Bytes, pw0: Bytes, device0: Responder, challenge: Bytes,
                        code: Bytes, n0: Bytes, n1: Bytes, n2: Bytes)
    requires Sized(s) && Encodable(fields) && |dk| == DATA_KEY_LEN && |challenge| == CHALLENGE_LEN
    requires |n0| == |n1| == |n2| == WRAP_NONCE_LEN && device0(challenge).Ok?
    requires forall pw, salt, c :: s.argon2id(pw, salt, c).Ok?
    ensures Create(s, fields, dk, pw0, Some(n0)).Ok?
    ensures var k := Create(s, fields, dk, pw0, Some(n0)).value;
      && Inv(s, k)
      && var (start, r) := EnrollYubiKey(s, k, pw0, device0(challenge).value, challenge, code, Some(n1), Some(n2));
         && r.Ok? && YubiKeyVault(s, start, pw0, device0, code) && Asks(start, challenge)
         && start.Params() == ParamsOf(fields) && start.header.costs == fields.costs
  {
    hide Inv, AuthSpan, Encodable, Sized;
    CreateEstablishes(s, fields, dk, pw0, Some(n0));
    var k := Create(s, fields, dk, pw0, Some(n0)).value;
    var response := device0(challenge).value;
    EnrollYubiKeyEstablishes(s, k, pw0, device0, response, challenge, code, Some(n1), Some(n2));
    WrapYubiKeyWraps(s, dk, pw0, response, challenge, k.Params(), Some(n1));
  }

  /**
   The same for the YubiKey theorem, whatever challenges are drawn on the way and however the devices, the
   enrolled one and that of the attempt, answer them.
   */
  lemma YubiKeyLawsHold(fields: Header, dk: Bytes, pw0: Bytes, device0: Responder, challenge: Bytes, code: Bytes,
                        n0: Bytes, n1: Bytes, n2: Bytes, steps: seq<Step>, pw: Bytes, device: Responder)
    returns (s: Suite, u: Universe, now: Ring, asked: Bytes)
    requires Encodable(fields) && |dk| == DATA_KEY_LEN && |challenge| == CHALLENGE_LEN && device0(challenge).Ok?
    requires |n0| == |n1| == |n2| == WRAP_NONCE_LEN && 2 * |steps| + 4 <= MANY
    requires forall i :: 0 <= i < |steps| ==>
      steps[i].Typed(Plain()) && Steady(steps[i], WithYubiKey(pw0, device0, code))
    ensures Sized(s) && Ideal(s, u)
    ensures Create(s, fields, dk, pw0, Some(n0)).Ok?
    ensures var k := Create(s, fields, dk, pw0, Some(n0)).value;
      && Inv(s, k)
      && var (start, r) := EnrollYubiKey(s, k, pw0, device0(challenge).value, challenge, code, Some(n1), Some(n2));
         && r.Ok? && Inv(s, start) && (forall i :: 0 <= i < |steps| ==> steps[i].Typed(s)) && now
             == Run(s, start, steps)
    ensures Asks(now, asked) && device0(asked).Ok?
    ensures Covered(s, u, now) && Among(s, u, Password(pw), now.Params())
      && (device(asked).Ok? ==> Among(s, u, PasswordAndYubiKey(pw, device(asked).value), now.Params()))
    ensures UnwrapDataKey(s, now.header, pw, Some(device), None).Ok? <==> pw == pw0 && device(asked) == device0(asked)
    ensures UnwrapDataKey(s, now.header, pw, None, None).Ok? <==> pw == code
  {
    hide Inv, AuthSpan, Ideal, Sized, Among, Run, Encodable, Steady, UnwrapDataKey, Create, EnrollYubiKey, LE;
    var h := WithYubiKey(pw0, device0, code);
    var asks := [challenge] + Challenges(steps);
    s, u := AnswersInPlay(pw0, device0, code, pw, device, asks, ParamsOf(fields));
    SteadyTyped(s, steps, h);
    NewYubiKeyVault(s, fields, dk, pw0, device0, challenge, code, n0, n1, n2);
    var k := Create(s, fields, dk, pw0, Some(n0)).value;
    var response := device0(challenge).value;
    var start := EnrollYubiKey(s, k, pw0, response, challenge, code, Some(n1), Some(n2)).0;
    now, asked := YubiKeyForLife(s, u, k, pw0, device0, code, response, challenge, Some(n1), Some(n2), steps, pw,
        device);
    SteadyKeepsParams(s, start, h, steps);
    SteadyRunStaysInForce(s, start, h, steps);
    var last := RunAsks(s, start, h, steps, challenge);
    assert now.Params() == ParamsOf(fields) == now.Params().(costs := now.header.costs);
  }

  lemma SteadyTyped(s: Suite, steps: seq<Step>, h: Habit)
    requires forall i :: 0 <= i < |steps| ==> steps[i].Typed(Plain()) && Steady(steps[i], h)
    ensures forall i :: 0 <= i < |steps| ==> steps[i].Typed(s)
  {
  }
}
