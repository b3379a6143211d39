/** The credential vault: opening, saving, and the stanza operations performed in place (vault.rs). */
module Vaults {
  import opened Bytes
  import opened Primitives
  import opened Pad
  import opened Headers
  import opened StanzaTails
  import opened Envelope
  import opened Keyring
  import opened Unlock
  import opened Body
  import opened Containers
  import opened Payloads
  import BlockStream

  /** An open vault. */
  datatype OpenVault = OpenVault(header: Header, dataKey: Bytes, payload: Payload)

  datatype SaveOptions = SaveOptions(password: Option<Bytes>, yubikeyStrict: Option<bool>, respond: Option<Responder>)

  datatype SaveReport = SaveReport(bytes: Bytes, yubikeyStale: bool)

  // ---------------------------------------------------------------- opening

  function OpenedPayload(s: Suite, k: BodyKeys, body: Bytes): Result<Payload> {
    var ct :- BlockStream.ReadFrom(s, k.Mac(), body, 0);
    FromCiphertext(s, k.Aead(s), ct)
  }

  /** Everything after the data key is unwrapped. */
  function OpenWithPayload(s: Suite, h: Header, dk: Bytes, b: Bytes): Result<OpenVault> {
    if OnDiskLen(h) > |b| then Err(HeaderCorrupt)
    else
      var _ :- VerifyHmac(s, h, dk);
      var payload :- OpenedPayload(s, KeysOf(h, dk), b[OnDiskLen(h)..]);
      Ok(OpenVault(h, dk, payload))
  }

  function OpenInner(s: Suite, b: Bytes, pw: Bytes, hw: Option<Responder>, keyfile: Option<Bytes>): Result<OpenVault> {
    match Parse(s, b, None)
    case Err(e) => Err(e)
    case Ok(h) =>
      if KindOf(h.magic) != Some(Vault) then Err(WrongContainerKind)
      else
        var dk :- UnwrapDataKey(s, h, pw, hw, keyfile);
        var _ :- VerifyHmac(s, h, dk);
        ParsedSerializes(s, b, None);
        var payload :- OpenedPayload(s, KeysOf(h, dk), b[OnDiskLen(h)..]);
        Ok(OpenVault(h, dk, payload))
  }

  method Unwrap(s: Suite, h: Header, pw: Bytes, hw: Option<Responder>,
                keyfile: Option<Bytes>) returns (r: Result<Bytes>)
    ensures r == UnwrapDataKey(s, h, pw, hw, keyfile)
  {
    var p := ParamsOf(h);
    if hw.Some? {
      var at := Find(h.stanzas, PW_YUBIKEY);
      if at.Some? {
        var st, respond := h.stanzas[at.value], hw.value;
        var challenge := YubiKeyChallenge(st);
        if challenge.Err? {
          return Err(challenge.error);
        }
        var response := respond(challenge.value);
        if response.Err? {
          return Err(response.error);
        }
        return UnwrapYubiKey(s, st, pw, response.value, p);
      }
    }
    if keyfile.Some? {
      var at := Find(h.stanzas, PW_KEYFILE);
      if at.Some? {
        return UnwrapKeyfile(s, h.stanzas[at.value], pw, keyfile.value, p);
      }
    }
    r := TryPasswordStanzas(s, h.stanzas, pw, p);
  }

  method Open(s: Suite, b: Bytes, pw: Bytes, hw: Option<Responder>, keyfile: Option<Bytes>)
    returns (r: Result<OpenVault>)
    ensures r == OpenInner(s, b, pw, hw, keyfile)
  {
    hide VerifyHmac, OpenedPayload, UnwrapDataKey, Parse, OnDiskLen;
    var parsed := Parse(s, b, None);
    if parsed.Err? {
      return Err(parsed.error);
    }
    var h := parsed.value;
    if KindOf(h.magic) != Some(Vault) {
      return Err(WrongContainerKind);
    }
    var dk := Unwrap(s, h, pw, hw, keyfile);
    if dk.Err? {
      return Err(dk.error);
    }
    ParsedSerializes(s, b, None);
    r := OpenLayers(s, h, dk.value, b);
  }

  /** Opening by a FIDO2 output or a TPM secret: no password, and otherwise the same layers. */
  function OpenByHardware(s: Suite, b: Bytes, attempt: Secret): Result<OpenVault> {
    match Parse(s, b, None)
    case Err(e) => Err(e)
    case Ok(h) =>
      if KindOf(h.magic) != Some(Vault) then Err(WrongContainerKind)
      else
        var dk :- UnwrapHardware(s, h, attempt);
        var _ :- VerifyHmac(s, h, dk);
        ParsedSerializes(s, b, None);
        var payload :- OpenedPayload(s, KeysOf(h, dk), b[OnDiskLen(h)..]);
        Ok(OpenVault(h, dk, payload))
  }

  method OpenHardware(s: Suite, b: Bytes, attempt: Secret) returns (r: Result<OpenVault>)
    requires attempt.Prf? || attempt.TpmSecret?
    ensures r == OpenByHardware(s, b, attempt)
  {
    hide VerifyHmac, OpenedPayload, Envelope.Unwrap, Parse, OnDiskLen;
    var parsed := Parse(s, b, None);
    if parsed.Err? {
      return Err(parsed.error);
    }
    var h := parsed.value;
    if KindOf(h.magic) != Some(Vault) {
      return Err(WrongContainerKind);
    }
    var at := Find(h.stanzas, attempt.Kind());
    if at.None? {
      return Err(HeaderAuth);
    }
    var dk := Envelope.Unwrap(s, h.stanzas[at.value], attempt, ParamsOf(h));
    if dk.Err? {
      return Err(dk.error);
    }
    ParsedSerializes(s, b, None);
    r := OpenLayers(s, h, dk.value, b);
  }

  /** The layers under the data key: header tag, blocks, payload. */
  method OpenLayers(s: Suite, h: Header, dk: Bytes, b: Bytes) returns (r: Result<OpenVault>)
    requires Parse(s, b, None) == Ok(h)
    ensures r == OpenWithPayload(s, h, dk, b)
  {
    ParsedSerializes(s, b, None);
    var verified := VerifyHmac(s, h, dk);
    if verified.Err? {
      return Err(verified.error);
    }
    var ct := BlockStream.Read(s, KeysOf(h, dk).Mac(), b[OnDiskLen(h)..]);
    if ct.Err? {
      return Err(ct.error);
    }
    var payload := ParseFromStreamCiphertext(s, dk, h.noncePrefix, ct.value);
    match payload
    case Err(e) => return Err(e);
    case Ok(v) => r := Ok(OpenVault(h, dk, v));
  }

  /** Resize the plaintext to its bucket, encrypt it, frame it. */
  method PadAndSeal(s: Suite, keys: BodyKeys, mode: PadMode, plaintext: Bytes) returns (r: Result<Bytes>)
    requires |plaintext| <= ISIZE_MAX
    ensures r == Ok(SealedBody(s, keys, Padded(mode, plaintext)))
  {
    PaddedFits(mode, |plaintext|);
    hide SealedBody, PadmeLen, Zeros;
    var target := mode.PaddedLen(|plaintext|);
    var padded := plaintext + Zeros(target - |plaintext|);
    assert padded == Padded(mode, plaintext);
    r := SealBody(s, keys, padded);
  }

  /** The payload of the next save: a fresh inner key, and the version one up, in 64 bits. */
  function Renewed(p: Payload, innerKey: Bytes): Payload {
    p.(innerKey := innerKey, version := (p.version + 1) % (U64_MAX + 1))
  }

  /** A serialised payload is a Rust vector, so it is at most `isize::MAX` bytes long. */
  ghost predicate Allocatable(s: Suite, p: Payload) {
    forall innerKey: Bytes {:trigger Renewed(p, innerKey)} ::
      |innerKey| == INNER_STREAM_KEY_LEN ==> |Serialized(s, Renewed(p, innerKey))| <= ISIZE_MAX
  }

  /** The plaintext of a save. */
  function Written(s: Suite, p: Payload): Bytes { Padded(p.padMode, Serialized(s, p)) }

  /** What the YubiKey policy has made of the vault `k` when a save goes on with `mid`. */
  ghost predicate Prepared(s: Suite, k: Ring, strict: bool, opts: SaveOptions, stale: bool, challenge: Option<Bytes>,
                           nonce: Option<Bytes>, mid: Ring)
    requires |k.owners| == |k.header.stanzas|
  {
    if !Has(k.header.stanzas, PW_YUBIKEY) then mid == k && !stale
    else if stale then mid == k && !strict
    else
      && opts.password.Some? && opts.respond.Some? && challenge.Some?
      && var respond := opts.respond.value;
      && respond(challenge.value).Ok?
      && (mid, Ok(Unit)) == RefreshYubiKey(s, k, opts.password.value, respond(challenge.value).value, challenge.value,
          nonce)
  }

  // ---------------------------------------------------------------- the YubiKey policy of a save

  /** Whether a save may go on, and leaves the stanza stale. */
  ghost function Policy(s: Suite, k: Ring, strict: bool, opts: SaveOptions, challenge: Option<Bytes>,
                        nonce: Option<Bytes>): Result<bool>
    requires |k.owners| == |k.header.stanzas|
  {
    var withoutDevice := if strict then Err(YubiKeyStrictSave) else Ok(true);
    if !Has(k.header.stanzas, PW_YUBIKEY) then Ok(false)
    else if opts.password.None? || opts.respond.None? then withoutDevice
    else if challenge.None? then Err(Crypto)
    else
      var respond := opts.respond.value;
      match respond(challenge.value)
      case Err(_) => withoutDevice
      case Ok(answer) =>
        match RefreshYubiKey(s, k, opts.password.value, answer, challenge.value, nonce).1
        case Err(e) => Err(e)
        case Ok(_) => Ok(false)
  }

  /** The password and a device are there, and the device answers the challenge. */
  ghost predicate CanRefresh(opts: SaveOptions, challenge: Bytes) {
    && opts.password.Some? && opts.respond.Some?
    && var respond := opts.respond.value;
       respond(challenge).Ok?
  }

  /**
   A YubiKey vault whose save can refresh the stanza never leaves it stale; where the password, the device or its
   answer is missing, the strict policy refuses the save, and otherwise the save goes on with a stale stanza. In a
   reachable vault refreshing itself cannot fail, unless no nonce can be drawn.
   */
  lemma PolicyExactly(s: Suite, u: Universe, k: Ring, strict: bool, opts: SaveOptions, challenge: Bytes, nonce: Bytes)
    requires Sized(s) && Ideal(s, u) && Inv(s, k) && |k.owners| == |k.header.stanzas|
    ensures Policy(s, k, strict, opts, Some(challenge), Some(nonce)) ==
      if !(exists st <- k.header.stanzas :: st.kind == PW_YUBIKEY) || CanRefresh(opts, challenge) then Ok(false)
      else if strict then Err(YubiKeyStrictSave)
      else Ok(true)
  {
    var a := k.header.stanzas;
    ShapeBounds(s, k);
    var at := Find(a, PASSWORD).value;
    assert Wraps(s, a[at], k.owners[at], k.header.salt, k.header.vaultId, k.dataKey);
    if CanRefresh(opts, challenge) {
      assert PasswordIkm(s, k.owners[at].secret.pw, k.Params()).Ok?;
      assert PasswordIkm(s, opts.password.value, k.Params()).Ok?;
    }
  }

  /** Without password or device nothing is drawn; else a challenge, and a nonce unless the device fails. */
  ghost function PolicyLog(yubikey: bool, opts: SaveOptions, stale: bool, challenge: Option<Bytes>,
                           nonce: Option<Bytes>): seq<Option<Bytes>> {
    if !yubikey || opts.password.None? || opts.respond.None? then []
    else if stale then [challenge]
    else [challenge, nonce]
  }

  // ---------------------------------------------------------------- what is drawn

  /** What re-wrapping one stanza draws: a challenge if it asks for a YubiKey, and a nonce. */
  ghost function DrawLog(kind: byte, draw: Draw): seq<Option<Bytes>> {
    if kind == PW_YUBIKEY then [draw.challenge, draw.nonce] else [draw.nonce]
  }

  ghost function DrawsLog(stanzas: seq<Stanza>, draws: seq<Draw>): seq<Option<Bytes>>
    requires |stanzas| == |draws|
  {
    if draws == [] then []
    else
      var n := |draws| - 1;
      DrawsLog(stanzas[..n], draws[..n]) + DrawLog(stanzas[n].kind, draws[n])
  }

  lemma DrawsLogNext(stanzas: seq<Stanza>, draws: seq<Draw>, i: nat, draw: Draw)
    requires |draws| == i < |stanzas|
    ensures DrawsLog(stanzas[..i + 1], draws + [draw])
         == DrawsLog(stanzas[..i], draws) + DrawLog(stanzas[i].kind, draw)
  {
    assert stanzas[..i + 1][..i] == stanzas[..i] && (draws + [draw])[..i] == draws;
  }

  /** What a save draws: both seeds of the header, and the inner key. */
  ghost function SeedsOf(h: Header, p: Payload): seq<Option<Bytes>> {
    [Some(h.masterSeed), Some(h.noncePrefix), Some(p.innerKey)]
  }

  /** Something was drawn, and the last draw failed. */
  ghost predicate LastFailed(before: seq<Option<Bytes>>, after: seq<Option<Bytes>>) {
    |after| > |before| && before <= after && after[|after| - 1].None?
  }

  lemma LastFailedLater(before: seq<Option<Bytes>>, mid: seq<Option<Bytes>>, after: seq<Option<Bytes>>)
    requires before <= mid && LastFailed(mid, after)
    ensures LastFailed(before, after)
  {
  }

  // ---------------------------------------------------------------- the vault object

  class VaultFile {
    const suite: Suite
    var header: Header
    var dataKey: Bytes
    var payload: Payload
    ghost var owners: seq<Owner>

    ghost function View(): Ring
      reads this
    {
      Ring(header, dataKey, owners)
    }

    /** The invariant of the stanza envelope, on a vault's own header. */
    ghost predicate Valid()
      reads this
    {
      && Sized(suite) && Inv(suite, View()) && KindOf(header.magic) == Some(Vault)
      && |payload.innerKey| == INNER_STREAM_KEY_LEN
    }

    constructor (suite: Suite, ring: Ring, payload: Payload)
      ensures this.suite == suite && View() == ring && this.payload == payload
    {
      this.suite := suite;
      header, dataKey, this.payload := ring.header, ring.dataKey, payload;
      owners := ring.owners;
    }

    static method Create(suite: Suite, pw: Bytes, costs: Costs, allowWeak: bool, rng: Rng)
      returns (r: Result<VaultFile>, ghost nonce: Option<Bytes>)
      requires Sized(suite)
      modifies rng
      ensures r.Ok? ==>
        8 * costs.p <= costs.m <= 4 * 1024 * 1024 && costs.t <= 24 && costs.p <= 16
      ensures r.Ok? && !allowWeak ==> costs.m >= 19 * 1024 && costs.t >= 2 && costs.p >= 1
      ensures r.Ok? ==>
        var v := r.value;
        rng.log == old(rng.log) + [Some(v.header.vaultId), Some(v.header.salt), Some(v.header.masterSeed),
          Some(v.header.noncePrefix), Some(v.payload.innerKey), Some(v.dataKey), nonce]
      ensures ValidateKdfParams(costs).Err? ==> r == Err(ValidateKdfParams(costs).error)
      ensures !allowWeak && RejectKdfBelowFloor(costs).Err? ==> r == Err(RejectKdfBelowFloor(costs).error)
      ensures r.Ok? ==>
        && fresh(r.value) && r.value.Valid() && r.value.suite == suite
        && r.value.owners == [Owner(Password(pw), costs)] && r.value.header.costs == costs
        && r.value.payload == Payload(r.value.payload.innerKey, NoPadding, 0, false, [], [])
      ensures r.Ok? ==>
        var h := r.value.header;
        && Drawn(nonce, WRAP_NONCE_LEN) && |h.stanzas| == 1
        && Ok(h.stanzas[0]) == WrapPassword(suite, r.value.dataKey, pw, ParamsOf(h), nonce)
    {
      nonce := None;
      var strength := ValidateKdfParams(costs);
      if strength.Err? {
        return Err(strength.error), nonce;
      }
      if !allowWeak {
        var floor := RejectKdfBelowFloor(costs);
        if floor.Err? {
          return Err(floor.error), nonce;
        }
      }
      var drawn := DrawFields(costs, rng);
      var n := rng.Draw(WRAP_NONCE_LEN);
      nonce := n;
      if drawn.Err? {
        return Err(drawn.error), nonce;
      }
      var (fields, inner, dk) := drawn.value;
      hide Inv, WrapPassword;
      var stanza := WrapPassword(suite, dk, pw, ParamsOf(fields), n);
      if stanza.Err? {
        return Err(stanza.error), nonce;
      }
      ghost var ring := Keyring.Create(suite, fields, dk, pw, nonce).value;
      CreateEstablishes(suite, fields, dk, pw, nonce);
      var v := new VaultFile(suite, Ring(fields.(stanzas := [stanza.value]), dk, [Owner(Password(pw), costs)]),
                             Payload(inner, NoPadding, 0, false, [], []));
      assert v.View() == ring;
      r := Ok(v);
    }

    /** The header of a new vault, its inner key and its data key. */
    static method DrawFields(costs: Costs, rng: Rng) returns (r: Result<(Header, Bytes, Bytes)>)
      requires ValidateKdfParams(costs).Ok?
      modifies rng
      ensures r.Err? ==> r == Err(Crypto)
      ensures r.Ok? ==>
        var (h, inner, dk) := r.value;
        && rng.log == old(rng.log) + [Some(h.vaultId), Some(h.salt), Some(h.masterSeed), Some(h.noncePrefix),
             Some(inner), Some(dk)]
        && h == Header(Vault.Magic(), FORMAT_VERSION, h.vaultId, KDF_ARGON2ID, costs, h.salt, h.masterSeed,
             h.noncePrefix, [], Zeros(32), Zeros(32))
        && Encodable(h) && |inner| == INNER_STREAM_KEY_LEN && |dk| == DATA_KEY_LEN
    {
      var vaultId := rng.Draw(16);
      var salt := rng.Draw(32);
      var seed := rng.Draw(32);
      var prefix := rng.Draw(16);
      var inner := rng.Draw(INNER_STREAM_KEY_LEN);
      var dk := rng.Draw(DATA_KEY_LEN);
      if vaultId.None? || salt.None? || seed.None? || prefix.None? || inner.None? || dk.None? {
        return Err(Crypto);
      }
      r := Ok((Header(Vault.Magic(), FORMAT_VERSION, vaultId.value, KDF_ARGON2ID, costs, salt.value, seed.value,
                      prefix.value, [], Zeros(32), Zeros(32)), inner.value, dk.value));
    }

    method AddRecoveryStanza(code: Bytes, rng: Rng) returns (r: Result<Unit>, ghost nonce: Option<Bytes>)
      requires Valid()
      modifies this`header, this`owners, rng
      ensures r.Ok? ==> rng.log == old(rng.log) + [nonce]
      ensures Valid() && Drawn(nonce, WRAP_NONCE_LEN)
      ensures (View(), r) == AddRecovery(suite, old(View()), code, nonce)
    {
      nonce := None;
      if Is2fa(header.stanzas) {
        return Err(Hardware), nonce;
      }
      if Count(header.stanzas, PASSWORD) >= 2 {
        return Err(Hardware), nonce;
      }
      var n := rng.Draw(WRAP_NONCE_LEN);
      nonce := n;
      AddRecoveryKeeps(suite, View(), code, nonce);
      var st := WrapPassword(suite, dataKey, code, ParamsOf(header), n);
      if st.Err? {
        return Err(st.error), nonce;
      }
      owners := owners + [Owner(Password(code), header.costs)];
      header := header.(stanzas := header.stanzas + [st.value]);
      r := Ok(Unit);
    }

    method EnrollYubiKey2fa(pw: Bytes, response: Bytes, challenge: Bytes, code: Bytes, rng: Rng)
      returns (r: Result<Unit>, ghost n1: Option<Bytes>, ghost n2: Option<Bytes>)
      requires Valid() && |challenge| == CHALLENGE_LEN
      modifies this`header, this`owners, this`payload, rng
      ensures r.Ok? ==> rng.log == old(rng.log) + [n1, n2]
      ensures Valid() && Drawn(n1, WRAP_NONCE_LEN) && Drawn(n2, WRAP_NONCE_LEN)
      ensures (View(), r) == EnrollYubiKey(suite, old(View()), pw, response, challenge, code, n1, n2)
      ensures payload == if r.Ok? then old(payload).(yubikeyStrict := true) else old(payload)
    {
      var d1 := rng.Draw(WRAP_NONCE_LEN);
      var d2 := rng.Draw(WRAP_NONCE_LEN);
      n1, n2 := d1, d2;
      StepKeeps(suite, View(), DoEnrollYubiKey(pw, response, challenge, code, n1, n2));
      var p := ParamsOf(header);
      var composite := WrapYubiKey(suite, dataKey, pw, response, challenge, p, d1);
      if composite.Err? {
        return Err(composite.error), n1, n2;
      }
      var recovery := WrapPassword(suite, dataKey, code, p, d2);
      if recovery.Err? {
        return Err(recovery.error), n1, n2;
      }
      owners := [Owner(PasswordAndYubiKey(pw, response), header.costs), Owner(Password(code), header.costs)];
      header := header.(stanzas := [composite.value, recovery.value]);
      payload := payload.(yubikeyStrict := true);
      r := Ok(Unit);
    }

    method EnrollKeyfile2fa(pw: Bytes, keyfile: Bytes, code: Bytes, rng: Rng)
      returns (r: Result<Unit>, ghost n1: Option<Bytes>, ghost n2: Option<Bytes>)
      requires Valid()
      modifies this`header, this`owners, rng
      ensures r.Ok? ==> rng.log == old(rng.log) + [n1, n2]
      ensures Valid() && Drawn(n1, WRAP_NONCE_LEN) && Drawn(n2, WRAP_NONCE_LEN)
      ensures (View(), r) == EnrollKeyfile(suite, old(View()), pw, keyfile, code, n1, n2)
    {
      var d1 := rng.Draw(WRAP_NONCE_LEN);
      var d2 := rng.Draw(WRAP_NONCE_LEN);
      n1, n2 := d1, d2;
      StepKeeps(suite, View(), DoEnrollKeyfile(pw, keyfile, code, n1, n2));
      var p := ParamsOf(header);
      var composite := WrapKeyfile(suite, dataKey, pw, keyfile, p, d1);
      if composite.Err? {
        return Err(composite.error), n1, n2;
      }
      var recovery := WrapPassword(suite, dataKey, code, p, d2);
      if recovery.Err? {
        return Err(recovery.error), n1, n2;
      }
      owners := [Owner(PasswordAndKeyfile(pw, keyfile), header.costs), Owner(Password(code), header.costs)];
      header := header.(stanzas := [composite.value, recovery.value]);
      r := Ok(Unit);
    }

    method AddFido2Stanza(prfOutput: Bytes, extra: Fido2Extra, rng: Rng)
      returns (r: Result<Unit>, ghost nonce: Option<Bytes>)
      requires Valid() && extra.Typed(suite)
      modifies this`header, this`owners, rng
      ensures r.Ok? ==> rng.log == old(rng.log) + [nonce]
      ensures Valid() && Drawn(nonce, WRAP_NONCE_LEN)
      ensures (View(), r) == AddFido2(suite, old(View()), prfOutput, extra, nonce)
    {
      nonce := None;
      if |header.stanzas| >= MAX_STANZAS {
        return Err(Hardware), nonce;
      }
      if Has(header.stanzas, FIDO2) {
        return Err(Hardware), nonce;
      }
      var n := rng.Draw(WRAP_NONCE_LEN);
      nonce := n;
      AddFido2Keeps(suite, View(), prfOutput, extra, nonce);
      var st := WrapFido2(suite, dataKey, prfOutput, header.vaultId, extra, n);
      if st.Err? {
        return Err(st.error), nonce;
      }
      owners := owners + [Owner(Prf(prfOutput), header.costs)];
      header := header.(stanzas := header.stanzas + [st.value]);
      r := Ok(Unit);
    }

    method SetTpmStanza(tpmIkm: Bytes, extra: TpmExtra, rng: Rng)
      returns (r: Result<Unit>, ghost nonce: Option<Bytes>)
      requires Valid()
      modifies this`header, this`owners, rng
      ensures r.Ok? ==> rng.log == old(rng.log) + [nonce]
      ensures Valid() && Drawn(nonce, WRAP_NONCE_LEN)
      ensures (View(), r) == SetTpm(suite, old(View()), tpmIkm, extra, nonce)
    {
      var n := rng.Draw(WRAP_NONCE_LEN);
      nonce := n;
      SetTpmKeeps(suite, View(), tpmIkm, extra, nonce);
      var st := WrapTpm(suite, dataKey, tpmIkm, header.vaultId, extra, n);
      if st.Err? {
        return Err(st.error), nonce;
      }
      var at := Find(header.stanzas, TPM);
      if at.Some? {
        owners := owners[at.value := Owner(TpmSecret(tpmIkm), header.costs)];
        header := header.(stanzas := header.stanzas[at.value := st.value]);
      } else {
        if |header.stanzas| >= MAX_STANZAS {
          return Err(Hardware), nonce;
        }
        owners := owners + [Owner(TpmSecret(tpmIkm), header.costs)];
        header := header.(stanzas := header.stanzas + [st.value]);
      }
      r := Ok(Unit);
    }

    method RemoveStanzaType(kind: byte) returns (r: Result<Unit>)
      requires Valid()
      modifies this`header, this`owners
      ensures Valid()
      ensures (View(), r) == RemoveType(old(View()), kind)
    {
      if kind == PASSWORD {
        return Err(Hardware);
      }
      RemoveKeeps(suite, View(), kind);
      ghost var kept := Without(header.stanzas, owners, kind);
      var before := |header.stanzas|;
      var stanzas := Retain(header.stanzas, kind);
      RetainIsWithout(header.stanzas, owners, kind);
      if |stanzas| == before {
        WithoutSameLength(header.stanzas, owners, kind);
        return Err(Hardware);
      }
      header := header.(stanzas := stanzas);
      owners := kept.1;
      r := Ok(Unit);
    }

    method ChangeKdf(pw: Bytes, costs: Costs, rng: Rng) returns (r: Result<Unit>, ghost nonce: Option<Bytes>)
      requires Valid()
      modifies this`header, this`owners, rng
      ensures r.Ok? ==> rng.log == old(rng.log) + [nonce]
      ensures Valid() && Drawn(nonce, WRAP_NONCE_LEN)
      ensures (View(), r) == Keyring.ChangeKdf(suite, old(View()), pw, costs, nonce)
      ensures !CostsInRange(costs) ==> r == Err(KdfParamsOutOfRange)
      ensures CostsInRange(costs) && !CostsAtFloor(costs) ==> r == Err(KdfBelowFloor)
    {
      nonce := None;
      var floor := RejectKdfBelowFloor(costs);
      if floor.Err? {
        return Err(floor.error), nonce;
      }
      var n := rng.Draw(WRAP_NONCE_LEN);
      nonce := n;
      ChangeKdfKeeps(suite, View(), pw, costs, nonce);
      var st := WrapPassword(suite, dataKey, pw, ParamsOf(header).(costs := costs), n);
      if st.Err? {
        return Err(st.error), nonce;
      }
      var stanzas := ReplaceFirstPassword(header.stanzas, st.value);
      ghost var at := Find(header.stanzas, PASSWORD);
      owners := if at.None? then owners else owners[at.value := Owner(Password(pw), costs)];
      header := header.(stanzas := stanzas, costs := costs);
      r := Ok(Unit);
    }

    /** Re-wrap one stanza, drawing a challenge for a YubiKey and a nonce for each. */
    method RewrapStanza(newKey: Bytes, opts: RotateOptions, kind: byte, pwSeen: nat, rng: Rng)
      returns (r: Result<Stanza>, ghost owner: Owner, ghost draw: Draw)
      modifies rng
      ensures r.Ok? ==> rng.log == old(rng.log) + DrawLog(kind, draw)
      ensures Drawn(draw.challenge, CHALLENGE_LEN) && Drawn(draw.nonce, WRAP_NONCE_LEN)
      ensures RewrapOne(suite, View(), newKey, opts, draw, kind, pwSeen) ==
              match r case Err(e) => Err(e) case Ok(st) => Ok((st, owner))
    {
      var p := ParamsOf(header);
      draw, owner := Draw(None, None), Owner(Password(opts.password), p.costs);
      if kind == PASSWORD {
        var secret := opts.password;
        if Is2fa(header.stanzas) || pwSeen > 0 {
          if opts.recoveryCode.None? {
            return Err(Hardware), owner, draw;
          }
          secret := opts.recoveryCode.value;
        }
        var n := rng.Draw(WRAP_NONCE_LEN);
        draw := Draw(None, n);
        owner := Owner(Password(secret), p.costs);
        r := WrapPassword(suite, newKey, secret, p, n);
      } else if kind == PW_YUBIKEY {
        if opts.respond.None? {
          return Err(YubiKeyStrictSave), owner, draw;
        }
        var challenge := rng.Draw(CHALLENGE_LEN);
        draw := Draw(challenge, None);
        if challenge.None? {
          return Err(Crypto), owner, draw;
        }
        var respond := opts.respond.value;
        var answer := respond(challenge.value);
        if answer.Err? {
          return Err(answer.error), owner, draw;
        }
        var n := rng.Draw(WRAP_NONCE_LEN);
        draw := Draw(challenge, n);
        owner := Owner(PasswordAndYubiKey(opts.password, answer.value), p.costs);
        r := WrapYubiKey(suite, newKey, opts.password, answer.value, challenge.value, p, n);
      } else if kind == PW_KEYFILE {
        if opts.keyfile.None? {
          return Err(Hardware), owner, draw;
        }
        var n := rng.Draw(WRAP_NONCE_LEN);
        draw := Draw(None, n);
        owner := Owner(PasswordAndKeyfile(opts.password, opts.keyfile.value), p.costs);
        r := WrapKeyfile(suite, newKey, opts.password, opts.keyfile.value, p, n);
      } else {
        r := Err(Hardware);
      }
    }

    method RewrapStanzas(newKey: Bytes, opts: RotateOptions, rng: Rng)
      returns (r: Result<Unit>, ghost draws: seq<Draw>)
      requires Valid() && |newKey| == DATA_KEY_LEN
      modifies this`header, this`owners, rng
      ensures r.Ok? ==>
        && |draws| == |old(header).stanzas|
        && rng.log == old(rng.log) + DrawsLog(old(header).stanzas, draws)
      ensures DrawsTyped(draws)
      ensures match r
        case Err(e) => unchanged(this) && Rotate(suite, old(View()), Some(newKey), opts, draws).1 == Err(e)
        case Ok(_) => (View().(dataKey := newKey), r) == Rotate(suite, old(View()), Some(newKey), opts, draws)
    {
      draws := [];
      if HasRecovery(header.stanzas) && opts.recoveryCode.None? {
        return Err(Hardware), draws;
      }
      hide RewrapFrom, Inv, DrawsLog;
      var rewrapped;
      ghost var outOwners;
      rewrapped, outOwners, draws := RewrapEach(newKey, opts, rng);
      if rewrapped.Err? {
        return Err(rewrapped.error), draws;
      }
      header := header.(stanzas := rewrapped.value);
      owners := outOwners;
      r := Ok(Unit);
    }

    /** The loop over the stanzas, which leaves the list as it is. */
    method RewrapEach(newKey: Bytes, opts: RotateOptions, rng: Rng)
      returns (r: Result<seq<Stanza>>, ghost outOwners: seq<Owner>, ghost draws: seq<Draw>)
      requires Valid() && |newKey| == DATA_KEY_LEN
      modifies rng
      ensures r.Ok? ==> |draws| == |header.stanzas| && rng.log == old(rng.log) + DrawsLog(header.stanzas, draws)
      ensures DrawsTyped(draws)
      ensures RewrapFrom(suite, View(), newKey, opts, draws, 0, 0) ==
              match r case Err(e) => Err(e) case Ok(out) => Ok((out, outOwners))
    {
      var out: seq<Stanza>, pwSeen: nat := [], 0;
      draws, outOwners := [], [];
      ghost var k, start := View(), rng.log;
      var stanzas := header.stanzas;
      UnderwayStarts(suite, k, newKey, opts, start);
      hide RewrapOne, Inv, DrawsLog, DrawLog, RewrapFrom, Underway, DrawsTyped;
      for i := 0 to |stanzas|
        invariant Underway(suite, k, newKey, opts, draws, i, pwSeen, out, outOwners, start, rng.log)
      {
        var wrapped: Result<Stanza>;
        ghost var owner, draw;
        ghost var before := rng.log;
        wrapped, owner, draw := RewrapStanza(newKey, opts, stanzas[i].kind, pwSeen, rng);
        UnderwayNext(suite, k, newKey, opts, draws, i, pwSeen, out, outOwners, start, before, rng.log, draw);
        draws := draws + [draw];
        if wrapped.Err? {
          return Err(wrapped.error), outOwners, draws;
        }
        out, outOwners := out + [wrapped.value], outOwners + [owner];
        if stanzas[i].kind == PASSWORD {
          pwSeen := pwSeen + 1;
        }
      }
      UnderwayEnds(suite, k, newKey, opts, draws, pwSeen, out, outOwners, start, rng.log);
      r := Ok(out);
    }

    /** Replace the data key; a failure leaves stanzas and data key as they were. */
    method RotateDataKey(opts: RotateOptions, rng: Rng) returns (r: Result<Unit>, ghost newKey: Option<Bytes>,
                         ghost draws: seq<Draw>)
      requires Valid()
      modifies this`header, this`owners, this`dataKey, rng
      ensures r.Ok? ==>
        && |draws| == |old(header).stanzas|
        && rng.log == old(rng.log) + [Some(dataKey)] + DrawsLog(old(header).stanzas, draws)
      ensures Valid() && Drawn(newKey, DATA_KEY_LEN) && DrawsTyped(draws)
      ensures (View(), r) == Rotate(suite, old(View()), newKey, opts, draws)
      ensures r.Err? ==> unchanged(this)
    {
      draws := [];
      var fresh' := rng.Draw(DATA_KEY_LEN);
      newKey := fresh';
      if fresh'.None? {
        return Err(Crypto), newKey, draws;
      }
      r, draws := RewrapStanzas(fresh'.value, opts, rng);
      RotateKeeps(suite, old(View()), newKey, opts, draws);
      if r.Ok? {
        dataKey := fresh'.value;
      }
    }

    // -------------------------------------------------------------- saving

    method RefreshYubiKey2fa(pw: Bytes, response: Bytes, challenge: Bytes, rng: Rng) returns (r: Result<Unit>,
                             ghost nonce: Option<Bytes>)
      requires Valid() && |challenge| == CHALLENGE_LEN
      modifies this`header, this`owners, rng
      ensures r.Ok? ==> rng.log == old(rng.log) + [nonce]
      ensures r.Err? ==> unchanged(this) && old(rng.log) <= rng.log
      ensures Valid() && Drawn(nonce, WRAP_NONCE_LEN)
      ensures (View(), r) == RefreshYubiKey(suite, old(View()), pw, response, challenge, nonce)
    {
      nonce := None;
      var at := Find(header.stanzas, PASSWORD);
      if at.None? {
        return Err(HeaderAuth), nonce;
      }
      var recovery := header.stanzas[at.value];
      var n := rng.Draw(WRAP_NONCE_LEN);
      nonce := n;
      RefreshKeeps(suite, View(), pw, response, challenge, nonce);
      var composite := WrapYubiKey(suite, dataKey, pw, response, challenge, ParamsOf(header), n);
      if composite.Err? {
        return Err(composite.error), nonce;
      }
      owners := [Owner(PasswordAndYubiKey(pw, response), header.costs), owners[at.value]];
      header := header.(stanzas := [composite.value, recovery]);
      r := Ok(Unit);
    }

    ghost function Strict(opts: SaveOptions): bool
      reads this
    {
      if opts.yubikeyStrict.Some? then opts.yubikeyStrict.value else payload.yubikeyStrict
    }

    /**
     The YubiKey policy of a save. The stanza is either refreshed under a new challenge the device has
     answered, or left as it is; it is left stale only without the strict policy.
     */
    method PrepareYubiKeySave(opts: SaveOptions, rng: Rng)
      returns (stale: Result<bool>, ghost challenge: Option<Bytes>, ghost nonce: Option<Bytes>)
      requires Valid()
      modifies this`header, this`owners, rng
      ensures stale.Ok? ==>
        rng.log == old(rng.log) + PolicyLog(old(Has(header.stanzas, PW_YUBIKEY)), opts, stale.value, challenge, nonce)
      ensures stale == Policy(suite, old(View()), old(Strict(opts)), opts, challenge, nonce)
      ensures old(Strict(opts)) == if opts.yubikeyStrict.None? then old(payload.yubikeyStrict)
        else opts.yubikeyStrict.value
      ensures Valid() && Drawn(challenge, CHALLENGE_LEN) && Drawn(nonce, WRAP_NONCE_LEN)
      ensures stale.Err? ==> unchanged(this)
      ensures stale.Ok? ==> Prepared(suite, old(View()), old(Strict(opts)), opts, stale.value, challenge, nonce, View())
    {
      hide Inv, RefreshYubiKey;
      challenge, nonce := None, None;
      if !Has(header.stanzas, PW_YUBIKEY) {
        return Ok(false), challenge, nonce;
      }
      var strict := if opts.yubikeyStrict.Some? then opts.yubikeyStrict.value else payload.yubikeyStrict;
      if opts.password.None? {
        if strict {
          return Err(YubiKeyStrictSave), challenge, nonce;
        }
        return Ok(true), challenge, nonce;
      }
      if opts.respond.Some? {
        var drawn := rng.Draw(CHALLENGE_LEN);
        challenge := drawn;
        if drawn.None? {
          return Err(Crypto), challenge, nonce;
        }
        var respond := opts.respond.value;
        match respond(drawn.value) {
          case Ok(hw) =>
            var refreshed;
            refreshed, nonce := RefreshYubiKey2fa(opts.password.value, hw, drawn.value, rng);
            if refreshed.Err? {
              return Err(refreshed.error), challenge, nonce;
            }
            assert refreshed.value == Unit;
            return Ok(false), challenge, nonce;
          case Err(_) =>
            if strict {
              return Err(YubiKeyStrictSave), challenge, nonce;
            }
            return Ok(true), challenge, nonce;
        }
      }
      if strict {
        return Err(YubiKeyStrictSave), challenge, nonce;
      }
      stale := Ok(true);
    }

    /** Fresh seeds for the header; a failed draw may leave one of them already replaced. */
    method DrawSeeds(rng: Rng) returns (r: Result<Unit>)
      requires Valid()
      modifies this`header, rng
      ensures r.Ok? ==> rng.log == old(rng.log) + [Some(header.masterSeed), Some(header.noncePrefix)]
      ensures r.Err? ==> LastFailed(old(rng.log), rng.log)
      ensures Valid()
      ensures header == old(header).(masterSeed := header.masterSeed, noncePrefix := header.noncePrefix)
      ensures r.Err? ==> r == Err(Crypto)
    {
      var seed := rng.Draw(32);
      if seed.None? {
        return Err(Crypto);
      }
      header := header.(masterSeed := seed.value);
      var prefix := rng.Draw(16);
      if prefix.None? {
        return Err(Crypto);
      }
      header := header.(noncePrefix := prefix.value);
      r := Ok(Unit);
    }

    /** Write the whole vault out under fresh seeds. */
    method SaveBody(rng: Rng) returns (r: Result<Bytes>)
      requires Valid() && Allocatable(suite, payload)
      modifies this`header, this`payload, rng
      ensures r.Ok? ==> rng.log == old(rng.log) + SeedsOf(header, payload)
      ensures r.Err? ==> LastFailed(old(rng.log), rng.log)
      ensures Valid()
      ensures r.Err? ==>
        && r == Err(Crypto) && payload == old(payload)
        && header == old(header).(masterSeed := header.masterSeed, noncePrefix := header.noncePrefix)
      ensures r.Ok? ==>
        && (View(), Ok(Unit)) == Reseed(suite, old(View()), header.masterSeed, header.noncePrefix)
        && header == Seal(suite, header, dataKey)
        && payload == Renewed(old(payload), payload.innerKey)
        && payload.version == (if old(payload.version) < U64_MAX then old(payload.version) + 1 else 0)
        && payload.entries == old(payload.entries) && payload.usage == old(payload.usage)
        && r.value == File(suite, header, dataKey, Written(suite, payload))
    {
      hide Wraps, Shape, AuthSpan, SealedBody, Serialized;
      var drawn := DrawSeeds(rng);
      if drawn.Err? {
        return Err(drawn.error);
      }
      var inner := rng.Draw(INNER_STREAM_KEY_LEN);
      if inner.None? {
        return Err(Crypto);
      }
      payload := Renewed(payload, inner.value);
      var plaintext := Payloads.Serialize(suite, payload);
      var body := PadAndSeal(suite, KeysOf(header, dataKey), payload.padMode, plaintext);
      match body
      case Ok(framed) =>
        ReseedKeeps(suite, old(View()), header.masterSeed, header.noncePrefix);
        SealIsStable(suite, header, dataKey);
        header := Seal(suite, header, dataKey);
        r := Ok(Headers.Serialize(header) + framed);
    }

    /**
     A body-writing save: the YubiKey policy first, then the body. `mid` is the vault between the two. An error
     may leave the stanza refreshed and the seeds replaced, but not the data key or the payload.
     */
    method SaveWith(opts: SaveOptions, rng: Rng)
      returns (r: Result<SaveReport>, ghost challenge: Option<Bytes>, ghost nonce: Option<Bytes>, ghost mid: Ring)
      requires Valid() && Allocatable(suite, payload)
      modifies this`header, this`owners, this`payload, rng
      ensures r.Ok? ==>
        rng.log == old(rng.log)
          + PolicyLog(old(Has(header.stanzas, PW_YUBIKEY)), opts, r.value.yubikeyStale, challenge, nonce)
          + SeedsOf(header, payload)
      ensures Policy(suite, old(View()), old(Strict(opts)), opts, challenge, nonce).Err? ==>
        r == Err(Policy(suite, old(View()), old(Strict(opts)), opts, challenge, nonce).error)
      ensures Policy(suite, old(View()), old(Strict(opts)), opts, challenge, nonce).Ok? && r.Err? ==>
        LastFailed(old(rng.log), rng.log)
      ensures Valid() && dataKey == old(dataKey)
      ensures r.Ok? ==>
        && Prepared(suite, old(View()), old(Strict(opts)), opts, r.value.yubikeyStale, challenge, nonce, mid)
        && (View(), Ok(Unit)) == Reseed(suite, mid, header.masterSeed, header.noncePrefix)
        && header == Seal(suite, header, dataKey)
        && payload == Renewed(old(payload), payload.innerKey)
        && payload.version == (if old(payload.version) < U64_MAX then old(payload.version) + 1 else 0)
        && payload.entries == old(payload.entries) && payload.usage == old(payload.usage)
        && r.value.bytes == File(suite, header, dataKey, Written(suite, payload))
      ensures r.Err? ==>
        && payload == old(payload)
        && ((owners == old(owners) && header.stanzas == old(header).stanzas)
            || Prepared(suite, old(View()), old(Strict(opts)), opts, false, challenge, nonce, mid))
        && (r.error != Crypto ==> unchanged(this))
    {
      hide Inv, Seal, File, Written, RefreshYubiKey, SeedsOf, LastFailed;
      var stale;
      stale, challenge, nonce := PrepareYubiKeySave(opts, rng);
      mid := View();
      if stale.Err? {
        return Err(stale.error), challenge, nonce, mid;
      }
      ghost var before := rng.log;
      var body := SaveBody(rng);
      if body.Err? {
        LastFailedLater(old(rng.log), before, rng.log);
        return Err(body.error), challenge, nonce, mid;
      }
      r := Ok(SaveReport(body.value, stale.value));
    }
  }

  // ---------------------------------------------------------------- helpers of the methods

  /** The first `i` stanzas have been re-wrapped to `out`; what remains is re-wrapping the others. */
  ghost predicate RewrapPrefix(s: Suite, k: Ring, newKey: Bytes, opts: RotateOptions, draws: seq<Draw>, i: nat,
                               pwSeen: nat,
                               out: seq<Stanza>, outOwners: seq<Owner>)
  {
    && i <= |k.header.stanzas| && i <= |draws| && |out| == |outOwners| == i
    && pwSeen == Count(k.header.stanzas[..i], PASSWORD)
    && forall j {:trigger out[j]} :: 0 <= j < i ==>
         RewrapOne(s, k, newKey, opts, draws[j], k.header.stanzas[j].kind, Count(k.header.stanzas[..j], PASSWORD))
             == Ok((out[j], outOwners[j]))
  }

  /** So far, and from what has been drawn for it. */
  ghost predicate Underway(s: Suite, k: Ring, newKey: Bytes, opts: RotateOptions, draws: seq<Draw>, i: nat, pwSeen: nat,
                           out: seq<Stanza>, outOwners: seq<Owner>, start: seq<Option<Bytes>>, log: seq<Option<Bytes>>)
  {
    && i <= |k.header.stanzas| && |draws| == i && DrawsTyped(draws)
    && log == start + DrawsLog(k.header.stanzas[..i], draws)
    && RewrapPrefix(s, k, newKey, opts, draws, i, pwSeen, out, outOwners)
  }

  lemma UnderwayStarts(s: Suite, k: Ring, newKey: Bytes, opts: RotateOptions, start: seq<Option<Bytes>>)
    ensures Underway(s, k, newKey, opts, [], 0, 0, [], [], start, start)
  {
    assert k.header.stanzas[..0] == [] && start + [] == start;
  }

  lemma UnderwayNext(s: Suite, k: Ring, newKey: Bytes, opts: RotateOptions, draws: seq<Draw>, i: nat, pwSeen: nat,
                     out: seq<Stanza>, outOwners: seq<Owner>, start: seq<Option<Bytes>>, log: seq<Option<Bytes>>,
                     after: seq<Option<Bytes>>, draw: Draw)
    requires Underway(s, k, newKey, opts, draws, i, pwSeen, out, outOwners, start, log) && i < |k.header.stanzas|
    requires Drawn(draw.challenge, CHALLENGE_LEN) && Drawn(draw.nonce, WRAP_NONCE_LEN)
    ensures DrawsTyped(draws + [draw])
    ensures var kind := k.header.stanzas[i].kind; var one := RewrapOne(s, k, newKey, opts, draw, kind, pwSeen);
      && (one.Err? ==> RewrapFrom(s, k, newKey, opts, draws + [draw], 0, 0) == Err(one.error))
      && (one.Ok? && after == log + DrawLog(kind, draw) ==>
          Underway(s, k, newKey, opts, draws + [draw], i + 1, if kind == PASSWORD then pwSeen + 1 else pwSeen,
                   out + [one.value.0], outOwners + [one.value.1], start, after))
  {
    RewrapPrefixExtends(s, k, newKey, opts, draws, i, pwSeen, out, outOwners, draw);
    hide RewrapPrefix, RewrapOne, DrawLog;
    DrawsLogNext(k.header.stanzas, draws, i, draw);
    hide DrawsLog;
    RewrapPrefixResult(s, k, newKey, opts, draws + [draw], i, pwSeen, out, outOwners);
    RewrapStops(s, k, newKey, opts, draws + [draw], i, pwSeen);
    hide RewrapFrom;
    assert start + DrawsLog(k.header.stanzas[..i], draws) + DrawLog(k.header.stanzas[i].kind, draw)
        == start + (DrawsLog(k.header.stanzas[..i], draws) + DrawLog(k.header.stanzas[i].kind, draw));
  }

  lemma UnderwayEnds(s: Suite, k: Ring, newKey: Bytes, opts: RotateOptions, draws: seq<Draw>, pwSeen: nat,
                     out: seq<Stanza>, outOwners: seq<Owner>, start: seq<Option<Bytes>>, log: seq<Option<Bytes>>)
    requires Underway(s, k, newKey, opts, draws, |k.header.stanzas|, pwSeen, out, outOwners, start, log)
    ensures DrawsTyped(draws) && |draws| == |k.header.stanzas| && log == start + DrawsLog(k.header.stanzas, draws)
    ensures RewrapFrom(s, k, newKey, opts, draws, 0, 0) == Ok((out, outOwners))
  {
    hide RewrapOne, DrawsLog;
    var n := |k.header.stanzas|;
    assert k.header.stanzas[..n] == k.header.stanzas;
    RewrapPrefixResult(s, k, newKey, opts, draws, n, pwSeen, out, outOwners);
    RewrapStops(s, k, newKey, opts, draws, n, pwSeen);
    hide RewrapFrom;
    assert out + [] == out && outOwners + [] == outOwners;
  }

  /** Re-wrapping ends with the list, or with a stanza that cannot be re-wrapped. */
  lemma RewrapStops(s: Suite, k: Ring, newKey: Bytes, opts: RotateOptions, draws: seq<Draw>, i: nat, pwSeen: nat)
    requires i <= |k.header.stanzas|
    ensures i == |k.header.stanzas| ==> RewrapFrom(s, k, newKey, opts, draws, i, pwSeen) == Ok(([], []))
    ensures i < |k.header.stanzas| ==>
      var one := RewrapOne(s, k, newKey, opts, DrawAt(draws, i), k.header.stanzas[i].kind, pwSeen);
      one.Err? ==> RewrapFrom(s, k, newKey, opts, draws, i, pwSeen) == Err(one.error)
  {
    hide RewrapOne;
  }

  lemma RewrapPrefixExtends(s: Suite, k: Ring, newKey: Bytes, opts: RotateOptions, draws: seq<Draw>, i: nat,
                            pwSeen: nat,
                            out: seq<Stanza>, outOwners: seq<Owner>, draw: Draw)
    requires RewrapPrefix(s, k, newKey, opts, draws, i, pwSeen, out, outOwners) && |draws| == i < |k.header.stanzas|
    ensures RewrapPrefix(s, k, newKey, opts, draws + [draw], i, pwSeen, out, outOwners)
    ensures var kind := k.header.stanzas[i].kind;
      var one := RewrapOne(s, k, newKey, opts, draw, kind, pwSeen);
      one.Ok? ==> RewrapPrefix(s, k, newKey, opts, draws + [draw], i + 1, if kind == PASSWORD then pwSeen + 1
          else pwSeen,
                               out + [one.value.0], outOwners + [one.value.1])
  {
    var a := k.header.stanzas;
    CountConcat(a[..i], [a[i]], PASSWORD);
    CountOne(a[i], PASSWORD);
    assert a[..i + 1] == a[..i] + [a[i]];
    assert forall j :: 0 <= j < i ==> (draws + [draw])[j] == draws[j];
  }

  lemma RewrapPrefixAt(s: Suite, k: Ring, newKey: Bytes, opts: RotateOptions, draws: seq<Draw>, i: nat, pwSeen: nat,
                       out: seq<Stanza>, outOwners: seq<Owner>, j: nat)
    requires RewrapPrefix(s, k, newKey, opts, draws, i, pwSeen, out, outOwners) && j < i
    ensures RewrapOne(s, k, newKey, opts, draws[j], k.header.stanzas[j].kind, Count(k.header.stanzas[..j], PASSWORD))
            == Ok((out[j], outOwners[j]))
  {
    var st := out[j];
  }

  lemma {:induction false} RewrapPrefixResult(s: Suite, k: Ring, newKey: Bytes, opts: RotateOptions,
                                              draws: seq<Draw>, i: nat, pwSeen: nat,
                                              out: seq<Stanza>, outOwners: seq<Owner>)
    requires RewrapPrefix(s, k, newKey, opts, draws, i, pwSeen, out, outOwners)
    ensures RewrapFrom(s, k, newKey, opts, draws, 0, 0) ==
            match RewrapFrom(s, k, newKey, opts, draws, i, pwSeen)
            case Err(e) => Err(e)
            case Ok((a, o)) => Ok((out + a, outOwners + o))
    decreases i
  {
    hide RewrapOne;
    if i == 0 {
      match RewrapFrom(s, k, newKey, opts, draws, 0, 0) {
        case Err(_) =>
        case Ok((a, o)) => assert [] + a == a && [] + o == o;
      }
    } else {
      var a := k.header.stanzas;
      var before := Count(a[..i - 1], PASSWORD);
      CountConcat(a[..i - 1], [a[i - 1]], PASSWORD);
      CountOne(a[i - 1], PASSWORD);
      assert a[..i] == a[..i - 1] + [a[i - 1]];
      RewrapPrefixResult(s, k, newKey, opts, draws, i - 1, before, out[..i - 1], outOwners[..i - 1]);
      RewrapPrefixAt(s, k, newKey, opts, draws, i, pwSeen, out, outOwners, i - 1);
      assert DrawAt(draws, i - 1) == draws[i - 1];
      match RewrapFrom(s, k, newKey, opts, draws, i, pwSeen) {
        case Err(_) =>
        case Ok((rest, o)) =>
          assert out[..i - 1] + ([out[i - 1]] + rest) == out + rest;
          assert outOwners[..i - 1] + ([outOwners[i - 1]] + o) == outOwners + o;
      }
    }
  }

  // ---------------------------------------------------------------- saved vaults open again

  /** What opening makes of a body that decrypts to a payload as a save writes it, or that does not decrypt. */
  lemma PayloadOfBody(s: Suite, k: BodyKeys, p: Payload, body: Bytes)
    requires Typed(s, p) && Countable(p)
    ensures OpenedBody(s, k, body).Err? ==> OpenedPayload(s, k, body).Err?
    ensures OpenedBody(s, k, body) == Ok(Written(s, p)) ==>
      OpenedPayload(s, k, body) == if Fits(p) then Ok(Resealed(s, p)) else Err(BodyMalformed)
  {
    hide Serialized, Typed, Countable, Fits, Resealed, Whole, CleanEnd, FromCiphertext, Stream.Decrypted;
    var plain := Serialized(s, p);
    var zeros := Written(s, p)[|plain|..];
    assert Written(s, p) == plain + zeros;
    PayloadReadsBackExactly(s, p, zeros);
    match BlockStream.ReadFrom(s, k.Mac(), body, 0)
    case Err(_) =>
    case Ok(ct) => CiphertextIsWhole(s, k.Aead(s), ct);
  }

  /**
   A saved vault opens, for whoever can unwrap its data key, exactly when no field of its payload is longer
   than 1 MiB and no record longer than 16 MiB, which saving does not check; it then gives back what was saved.
   Whoever cannot unwrap the key gets the unwrapping error.
   */
  lemma OpenSaved(s: Suite, k: Ring, p: Payload, pw: Bytes, hw: Option<Responder>, keyfile: Option<Bytes>)
    requires Sized(s) && Correct(s) && Inv(s, k) && KindOf(k.header.magic) == Some(Vault)
    requires k.header == Seal(s, k.header, k.dataKey)
    requires Typed(s, p) && Countable(p) && |Serialized(s, p)| <= ISIZE_MAX
    requires UnwrapDataKey(s, k.header, pw, hw, keyfile).Ok? ==>
      UnwrapDataKey(s, k.header, pw, hw, keyfile) == Ok(k.dataKey)
    ensures OpenInner(s, File(s, k.header, k.dataKey, Written(s, p)), pw, hw, keyfile) ==
      match UnwrapDataKey(s, k.header, pw, hw, keyfile)
      case Err(e) => Err(e)
      case Ok(dk) => if Fits(p) then Ok(OpenVault(k.header, dk, Resealed(s, p))) else Err(BodyMalformed)
  {
    hide UnwrapDataKey, Serialized, Typed, Countable, Fits, Resealed, OpenedPayload;
    var pt := Written(s, p);
    PaddedFits(p.padMode, |Serialized(s, p)|);
    OpenFile(s, k.header, k.dataKey, pt, None);
    PayloadOfBody(s, KeysOf(k.header, k.dataKey), p, File(s, k.header, k.dataKey, pt)[OnDiskLen(k.header)..]);
  }

  /** Opening to a data key: the kind, the unwrapping, then the layers under that key. */
  lemma OpenInnerExactly(s: Suite, b: Bytes, pw: Bytes, hw: Option<Responder>, keyfile: Option<Bytes>, dk: Bytes)
    ensures (OpenInner(s, b, pw, hw, keyfile).Ok? && OpenInner(s, b, pw, hw, keyfile).value.dataKey == dk) <==>
      && Parse(s, b, None).Ok? && var h := Parse(s, b, None).value;
      && KindOf(h.magic) == Some(Vault) && UnwrapDataKey(s, h, pw, hw, keyfile) == Ok(dk)
      && OpenWithPayload(s, h, dk, b).Ok?
    ensures OpenInner(s, b, pw, hw, keyfile).Ok? && OpenInner(s, b, pw, hw, keyfile).value.dataKey == dk ==>
      OpenInner(s, b, pw, hw, keyfile) == OpenWithPayload(s, Parse(s, b, None).value, dk, b)
  {
    hide OpenedPayload, VerifyHmac;
    if Parse(s, b, None).Ok? {
      ParsedSerializes(s, b, None);
    }
  }

  /** Each of the saves wrote out one of these payloads. */
  ghost predicate PayloadSaves(s: Suite, saves: seq<Save>, payloads: seq<Payload>) {
    && |saves| == |payloads|
    && forall i {:trigger saves[i]} {:trigger payloads[i]} :: 0 <= i < |saves| ==>
         Typed(s, payloads[i]) && Countable(payloads[i]) && saves[i].plaintext == Written(s, payloads[i])
  }

  lemma SaveOpens(s: Suite, save: Save, p: Payload, dk: Bytes, b: Bytes)
    requires Sized(s) && HonestSave(s, save, dk)
    requires Typed(s, p) && Countable(p) && save.plaintext == Written(s, p)
    requires Parse(s, b, None) == Ok(save.header)
    ensures OpenUnder(s, b, None, dk).Err? ==> OpenWithPayload(s, save.header, dk, b).Err?
    ensures b == FileOf(s, save, dk) ==>
      OpenWithPayload(s, save.header, dk, b) ==
        if Fits(p) then Ok(OpenVault(save.header, dk, Resealed(s, p))) else Err(BodyMalformed)
  {
    hide Serialized, Typed, Countable, Fits, Resealed, OpenedPayload, OpenedBody, Written, VerifyHmac, HonestSave;
    ParsedSerializes(s, b, None);
    PayloadOfBody(s, KeysOf(save.header, dk), p, b[OnDiskLen(save.header)..]);
    HonestFileOpens(s, save, dk, None);
  }

  /**
   Under ideal MACs, an unlock attempt opens a byte string to a data key exactly when the string is one of the
   files saved under that key, the secrets presented unwrap it from that file's header, and its payload is
   within the reader's limits; what it then gets is what that save wrote. No altered, truncated or recombined
   version of the saves opens.
   */
  lemma OnlySavedOpens(s: Suite, saves: seq<Save>, payloads: seq<Payload>, dk: Bytes, pw: Bytes, hw: Option<Responder>,
                       keyfile: Option<Bytes>, b: Bytes)
    requires Sized(s) && HonestSaves(s, saves, dk) && HeaderVerifiesOnly(s, saves, dk)
    requires PayloadSaves(s, saves, payloads)
    ensures (OpenInner(s, b, pw, hw, keyfile).Ok? && OpenInner(s, b, pw, hw, keyfile).value.dataKey == dk) <==>
      exists i {:trigger saves[i]} :: 0 <= i < |saves| && b == FileOf(s, saves[i], dk)
        && KindOf(saves[i].header.magic) == Some(Vault)
        && UnwrapDataKey(s, saves[i].header, pw, hw, keyfile) == Ok(dk) && Fits(payloads[i])
    ensures forall i {:trigger saves[i]} ::
      0 <= i < |saves| && b == FileOf(s, saves[i], dk) && KindOf(saves[i].header.magic) == Some(Vault)
      && UnwrapDataKey(s, saves[i].header, pw, hw, keyfile) == Ok(dk) && Fits(payloads[i])
      ==> OpenInner(s, b, pw, hw, keyfile) == Ok(OpenVault(saves[i].header, dk, Resealed(s, payloads[i])))
  {
    hide HonestSave, FileOf, OpenInner, UnwrapDataKey, Typed, Countable, Fits, Written, Resealed, OpenWithPayload;
    OpenInnerExactly(s, b, pw, hw, keyfile, dk);
    OnlySavedUnder(s, saves, payloads, dk, b);
  }

  /** The same, under a data key already unwrapped. */
  lemma OnlySavedUnder(s: Suite, saves: seq<Save>, payloads: seq<Payload>, dk: Bytes, b: Bytes)
    requires Sized(s) && HonestSaves(s, saves, dk) && HeaderVerifiesOnly(s, saves, dk)
    requires PayloadSaves(s, saves, payloads)
    ensures Parse(s, b, None).Ok? && OpenWithPayload(s, Parse(s, b, None).value, dk, b).Ok? ==>
      exists i {:trigger saves[i]} :: 0 <= i < |saves| && b == FileOf(s, saves[i], dk)
    ensures forall i {:trigger saves[i]} :: 0 <= i < |saves| && b == FileOf(s, saves[i], dk) ==>
      && Parse(s, b, None) == Ok(saves[i].header)
      && OpenWithPayload(s, saves[i].header, dk, b) ==
           if Fits(payloads[i]) then Ok(OpenVault(saves[i].header, dk, Resealed(s, payloads[i])))
             else Err(BodyMalformed)
  {
    hide HonestSave, FileOf, OpenUnder, Typed, Countable, Fits, Written, Resealed, OpenWithPayload;
    forall i | 0 <= i < |saves| && b == FileOf(s, saves[i], dk)
      ensures Parse(s, b, None) == Ok(saves[i].header)
      ensures OpenWithPayload(s, saves[i].header, dk, b) ==
        if Fits(payloads[i]) then Ok(OpenVault(saves[i].header, dk, Resealed(s, payloads[i]))) else Err(BodyMalformed)
    {
      HonestFileOpens(s, saves[i], dk, None);
      SaveOpens(s, saves[i], payloads[i], dk, b);
    }
    if Parse(s, b, None).Ok? && OpenWithPayload(s, Parse(s, b, None).value, dk, b).Ok? {
      OpenedToSave(s, saves, payloads, dk, b);
    }
  }

  /** What opens under the data key, payload and all, is the file of one of the saves. */
  lemma OpenedToSave(s: Suite, saves: seq<Save>, payloads: seq<Payload>, dk: Bytes, b: Bytes)
    requires Sized(s) && HonestSaves(s, saves, dk) && HeaderVerifiesOnly(s, saves, dk)
    requires PayloadSaves(s, saves, payloads)
    requires Parse(s, b, None).Ok? && OpenWithPayload(s, Parse(s, b, None).value, dk, b).Ok?
    ensures exists i {:trigger saves[i]} :: 0 <= i < |saves| && b == FileOf(s, saves[i], dk)
  {
    hide HonestSave, FileOf, Typed, Countable, Fits, Written, Resealed, OpenedPayload, OpenedBody, AuthSpan;
    var h := Parse(s, b, None).value;
    var i := VerifiedHeader(s, saves, dk, b, None);
    SaveOpens(s, saves[i], payloads[i], dk, b);
    AcceptsOnlyHonest(s, saves, dk, b, None);
  }

  /**
   A saved vault without a composite stanza opens for exactly the passwords of its current password stanzas,
   and offering a device or a keyfile as well makes no difference: the two-factor openings are supersets of
   the plain one.
   */
  lemma SupersetsOfOpen(s: Suite, u: Universe, k: Ring, p: Payload, pw: Bytes, hw: Option<Responder>,
                        keyfile: Option<Bytes>)
    requires Sized(s) && Ideal(s, u) && Inv(s, k) && Covered(s, u, k) && Among(s, u, Password(pw), k.Params())
    requires KindOf(k.header.magic) == Some(Vault) && Composites(k.header.stanzas) == 0
    requires HonestSave(s, Save(k.header, Written(s, p)), k.dataKey) && Typed(s, p) && Countable(p) && Fits(p)
    ensures OpenInner(s, File(s, k.header, k.dataKey, Written(s, p)), pw, hw, keyfile) ==
            if SomePasswordMatches(s, k, 0, pw) then Ok(OpenVault(k.header, k.dataKey, Resealed(s, p)))
            else Err(HeaderAuth)
  {
    hide Inv, Ideal, Covered, Among, HonestSave, Typed, Countable, Fits, Written, Resealed, SomePasswordMatches,
      OpenedPayload, VerifyHmac, TryPasswords;
    var save := Save(k.header, Written(s, p));
    CountZero(k.header.stanzas, PW_YUBIKEY);
    CountZero(k.header.stanzas, PW_KEYFILE);
    InvOwners(s, k);
    PasswordPathExactly(s, u, k, pw);
    HonestFileOpens(s, save, k.dataKey, None);
    SaveOpens(s, save, p, k.dataKey, FileOf(s, save, k.dataKey));
  }

  /**
   After any run and a save, a password alone still opens the vault and brings the payload back, unless the
   payload is beyond the reader's limits: then the save has made the vault unopenable.
   */
  lemma SavedVaultOpensExactly(s: Suite, k: Ring, steps: seq<Step>, seed: Bytes, prefix: Bytes, p: Payload)
    returns (k': Ring, pw: Bytes)
    requires Sized(s) && Correct(s) && Inv(s, k) && KindOf(k.header.magic) == Some(Vault)
    requires forall i :: 0 <= i < |steps| ==> steps[i].Typed(s)
    requires |seed| == 32 && |prefix| == 16
    requires Payloads.Typed(s, p) && Countable(p) && |Serialized(s, p)| <= ISIZE_MAX
    ensures k' == Reseed(s, Run(s, k, steps), seed, prefix).0
    ensures OpenInner(s, File(s, k'.header, k'.dataKey, Written(s, p)), pw, None, None) ==
            if Fits(p) then Ok(OpenVault(k'.header, k'.dataKey, Resealed(s, p))) else Err(BodyMalformed)
  {
    RunKeeps(s, k, steps);
    RunKeepsMagic(s, k, steps);
    var before := Run(s, k, steps);
    ReseedKeeps(s, before, seed, prefix);
    k' := Reseed(s, before, seed, prefix).0;
    pw := NeverLockedOut(s, k');
    SealIsStable(s, before.header.(masterSeed := seed, noncePrefix := prefix), before.dataKey);
    OpenSaved(s, k', p, pw, None, None);
  }

  /** A payload that can be saved and never opened again: one entry with a note of 1 MiB and one byte. */
  lemma UnopenablePayload(s: Suite, innerKey: Bytes, id: Bytes, notes: Bytes) returns (p: Payload)
    requires |innerKey| == INNER_STREAM_KEY_LEN && |id| == 16 && s.utf8([]) && s.utf8(notes) && |notes| == 0x10_0001
    ensures p.entries == [Entries.BLANK.(id := id, notes := notes)]
    ensures Typed(s, p) && Countable(p) && !Fits(p)
  {
    var e := Entries.BLANK.(id := id, notes := notes);
    p := Payload(innerKey, NoPadding, 0, false, [e], []);
    assert p.entries[0] == e && !Entries.FieldsUpTo(e, Entries.MAX_FIELD_LEN);
  }

  lemma StepKeepsMagic(s: Suite, k: Ring, step: Step)
    requires |k.owners| == |k.header.stanzas|
    ensures Apply(s, k, step).0.header.magic == k.header.magic
  {
    hide WrapPassword, WrapYubiKey, WrapKeyfile, WrapFido2, WrapTpm, RewrapFrom, AuthSpan;
  }

  lemma {:induction false} RunKeepsMagic(s: Suite, k: Ring, steps: seq<Step>)
    requires Sized(s) && Inv(s, k) && forall i :: 0 <= i < |steps| ==> steps[i].Typed(s)
    ensures Run(s, k, steps).header.magic == k.header.magic
    decreases |steps|
  {
    hide Inv, Apply;
    if steps != [] {
      StepKeeps(s, k, steps[0]);
      InvOwners(s, k);
      StepKeepsMagic(s, k, steps[0]);
      RunKeepsMagic(s, Apply(s, k, steps[0]).0, steps[1..]);
    }
  }
}
