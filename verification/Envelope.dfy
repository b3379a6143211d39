/**
 Key-wrapping stanzas: the data key sealed under a key derived from a password, from a password
 together with a second factor, or from a hardware secret (envelope/mod.rs, fido2.rs, tpm.rs).
 */
module Envelope {
  import opened Bytes
  import opened Primitives
  import opened Headers
  import opened StanzaTails

  const PW_WRAP_INFO: Bytes := [118, 97, 117, 108, 116, 45, 112, 119, 45, 119, 114, 97, 112, 45, 118, 49]
  const TWOFA_WRAP_INFO: Bytes := [118, 97, 117, 108, 116, 45, 50, 102, 97, 45, 119, 114, 97, 112, 45, 118, 49]
  const KEYFILE_WRAP_INFO: Bytes :=
    [118, 97, 117, 108, 116, 45, 107, 101, 121, 102, 105, 108, 101, 45, 119, 114, 97, 112, 45, 118, 49]
  const FIDO2_WRAP_INFO: Bytes := [118, 97, 117, 108, 116, 45, 104, 119, 45, 119, 114, 97, 112, 45, 118, 49]
  const TPM_WRAP_INFO: Bytes := [118, 97, 117, 108, 116, 45, 116, 112, 109, 45, 119, 114, 97, 112, 45, 118, 49]
  const FIDO2_SALT_LABEL: Bytes := [102, 105, 100, 111, 50, 45, 104, 119, 45, 118, 49]

  const DATA_KEY_LEN := 32
  const WRAPPED_KEY_LEN := DATA_KEY_LEN + TAG_LEN
  const CHALLENGE_LEN := 32

  /** The header fields every wrapping key depends on. */
  datatype Params = Params(salt: Bytes, vaultId: Bytes, costs: Costs)

  function ParamsOf(h: Header): Params { Params(h.salt, h.vaultId, h.costs) }

  // ---------------------------------------------------------------- wrapping keys

  /** Argon2id over the NFC-normalised password. */
  function PasswordIkm(s: Suite, pw: Bytes, p: Params): Result<Bytes> {
    s.argon2id(s.nfc(pw), p.salt, p.costs)
  }

  function PasswordKey(s: Suite, pw: Bytes, p: Params): Result<Bytes> {
    var ikm :- PasswordIkm(s, pw, p);
    Ok(s.hkdf(ikm, p.vaultId, PW_WRAP_INFO))
  }

  /** Key material of both factors, the password's first. */
  function CompositeKey(s: Suite, pw: Bytes, factor: Bytes, p: Params, info: Bytes): Result<Bytes> {
    var ikm :- PasswordIkm(s, pw, p);
    Ok(s.hkdf(ikm + factor, p.vaultId, info))
  }

  function Fido2Key(s: Suite, prfOutput: Bytes, vaultId: Bytes): Bytes { s.hkdf(prfOutput, vaultId, FIDO2_WRAP_INFO) }

  function TpmKey(s: Suite, tpmIkm: Bytes, vaultId: Bytes): Bytes { s.hkdf(tpmIkm, vaultId, TPM_WRAP_INFO) }

  // ---------------------------------------------------------------- the sealed key

  /** A drawn nonce and the data key sealed under it; `None` is a failed draw. */
  function SealKey(s: Suite, key: Bytes, dataKey: Bytes, nonce: Option<Bytes>): Result<Bytes> {
    match nonce
    case None => Err(Crypto)
    case Some(n) => Ok(n + s.xseal(key, n, dataKey))
  }

  /** Open the wrapped key that starts at `at`. */
  function OpenKey(s: Suite, key: Bytes, data: Bytes, at: nat): Result<Bytes>
    requires at + WRAP_NONCE_LEN + WRAPPED_KEY_LEN <= |data|
  {
    var nonceEnd := at + WRAP_NONCE_LEN;
    match s.xopen(key, data[at..nonceEnd], data[nonceEnd..nonceEnd + WRAPPED_KEY_LEN])
    case None => Err(HeaderAuth)
    case Some(dk) => if |dk| != DATA_KEY_LEN then Err(HeaderAuth) else Ok(dk)
  }

  // ---------------------------------------------------------------- wrap and unwrap

  function WrapPassword(s: Suite, dk: Bytes, pw: Bytes, p: Params, nonce: Option<Bytes>): Result<Stanza> {
    var key :- PasswordKey(s, pw, p);
    var sealed :- SealKey(s, key, dk, nonce);
    Ok(Stanza(PASSWORD, sealed))
  }

  function UnwrapPassword(s: Suite, st: Stanza, pw: Bytes, p: Params): Result<Bytes> {
    if st.kind != PASSWORD then Err(Crypto)
    else if |st.data| < WRAP_NONCE_LEN + WRAPPED_KEY_LEN then Err(HeaderAuth)
    else
      var key :- PasswordKey(s, pw, p);
      OpenKey(s, key, st.data, 0)
  }

  function WrapYubiKey(s: Suite, dk: Bytes, pw: Bytes, response: Bytes, challenge: Bytes, p: Params,
                       nonce: Option<Bytes>)
    : Result<Stanza>
  {
    var key :- CompositeKey(s, pw, response, p, TWOFA_WRAP_INFO);
    var sealed :- SealKey(s, key, dk, nonce);
    Ok(Stanza(PW_YUBIKEY, challenge + sealed))
  }

  function YubiKeyChallenge(st: Stanza): Result<Bytes> {
    if st.kind != PW_YUBIKEY || |st.data| < CHALLENGE_LEN then Err(HeaderAuth) else Ok(st.data[..CHALLENGE_LEN])
  }

  function UnwrapYubiKey(s: Suite, st: Stanza, pw: Bytes, response: Bytes, p: Params): Result<Bytes> {
    if st.kind != PW_YUBIKEY then Err(Crypto)
    else if |st.data| < CHALLENGE_LEN + WRAP_NONCE_LEN + WRAPPED_KEY_LEN then Err(HeaderAuth)
    else
      var key :- CompositeKey(s, pw, response, p, TWOFA_WRAP_INFO);
      OpenKey(s, key, st.data, CHALLENGE_LEN)
  }

  function WrapKeyfile(s: Suite, dk: Bytes, pw: Bytes, keyfile: Bytes, p: Params,
                       nonce: Option<Bytes>): Result<Stanza> {
    var key :- CompositeKey(s, pw, s.sha256(keyfile), p, KEYFILE_WRAP_INFO);
    var sealed :- SealKey(s, key, dk, nonce);
    Ok(Stanza(PW_KEYFILE, sealed))
  }

  function UnwrapKeyfile(s: Suite, st: Stanza, pw: Bytes, keyfile: Bytes, p: Params): Result<Bytes> {
    if st.kind != PW_KEYFILE then Err(Crypto)
    else if |st.data| < WRAP_NONCE_LEN + WRAPPED_KEY_LEN then Err(HeaderAuth)
    else
      var key :- CompositeKey(s, pw, s.sha256(keyfile), p, KEYFILE_WRAP_INFO);
      OpenKey(s, key, st.data, 0)
  }

  function WrapFido2(s: Suite, dk: Bytes, prfOutput: Bytes, vaultId: Bytes, extra: Fido2Extra, nonce: Option<Bytes>)
    : Result<Stanza>
  {
    var sealed :- SealKey(s, Fido2Key(s, prfOutput, vaultId), dk, nonce);
    var tail :- extra.Serialize();
    Ok(Stanza(FIDO2, sealed + tail))
  }

  function HardwareSalt(s: Suite, vaultId: Bytes): Bytes { s.sha256(vaultId + FIDO2_SALT_LABEL) }

  function UnwrapFido2(s: Suite, st: Stanza, prfOutput: Bytes, vaultId: Bytes): Result<Bytes> {
    if st.kind != FIDO2 then Err(Crypto)
    else if |st.data| < WRAP_NONCE_LEN + WRAPPED_KEY_LEN then Err(HeaderAuth)
    else
      var extra :- Fido2Extra.Parse(s, st.data[WRAP_NONCE_LEN + WRAPPED_KEY_LEN..]);
      if extra.saltHash != HardwareSalt(s, vaultId) then Err(HeaderAuth)
      else OpenKey(s, Fido2Key(s, prfOutput, vaultId), st.data, 0)
  }

  function WrapTpm(s: Suite, dk: Bytes, tpmIkm: Bytes, vaultId: Bytes, extra: TpmExtra,
                   nonce: Option<Bytes>): Result<Stanza> {
    var sealed :- SealKey(s, TpmKey(s, tpmIkm, vaultId), dk, nonce);
    var tail :- extra.Serialize();
    Ok(Stanza(TPM, sealed + tail))
  }

  function UnwrapTpm(s: Suite, st: Stanza, tpmIkm: Bytes, vaultId: Bytes): Result<Bytes> {
    if st.kind != TPM then Err(Crypto)
    else if |st.data| < WRAP_NONCE_LEN + WRAPPED_KEY_LEN then Err(HeaderAuth)
    else
      var _ :- TpmExtra.Parse(st.data[WRAP_NONCE_LEN + WRAPPED_KEY_LEN..]);
      OpenKey(s, TpmKey(s, tpmIkm, vaultId), st.data, 0)
  }

  // ---------------------------------------------------------------- who can open a stanza

  /** The secrets one unlock attempt presents, and, kept beside a stanza, the secrets it was wrapped under. */
  datatype Secret =
    | Password(pw: Bytes)
    | PasswordAndYubiKey(pw: Bytes, response: Bytes)
    | PasswordAndKeyfile(pw: Bytes, keyfile: Bytes)
    | Prf(output: Bytes)
    | TpmSecret(ikm: Bytes)
  {
    function Kind(): byte {
      match this
      case Password(_) => PASSWORD
      case PasswordAndYubiKey(_, _) => PW_YUBIKEY
      case PasswordAndKeyfile(_, _) => PW_KEYFILE
      case Prf(_) => FIDO2
      case TpmSecret(_) => TPM
    }

    /** Where in the stanza's data the wrapped key starts. */
    function Offset(): nat { if PasswordAndYubiKey? then CHALLENGE_LEN else 0 }

    predicate UsesPassword() { Password? || PasswordAndYubiKey? || PasswordAndKeyfile? }
  }

  /** Whoever holds `secret` can open the stanza, as long as the header still has `costs`. */
  datatype Owner = Owner(secret: Secret, costs: Costs)

  /** What HKDF is given: input key material, salt and info. */
  datatype KdfInput = KdfInput(ikm: Bytes, salt: Bytes, info: Bytes)

  function Derive(s: Suite, x: KdfInput): Bytes { s.hkdf(x.ikm, x.salt, x.info) }

  function InputOf(s: Suite, secret: Secret, p: Params): Result<KdfInput> {
    match secret
    case Password(pw) =>
      var ikm :- PasswordIkm(s, pw, p);
      Ok(KdfInput(ikm, p.vaultId, PW_WRAP_INFO))
    case PasswordAndYubiKey(pw, r) =>
      var ikm :- PasswordIkm(s, pw, p);
      Ok(KdfInput(ikm + r, p.vaultId, TWOFA_WRAP_INFO))
    case PasswordAndKeyfile(pw, f) =>
      var ikm :- PasswordIkm(s, pw, p);
      Ok(KdfInput(ikm + s.sha256(f), p.vaultId, KEYFILE_WRAP_INFO))
    case Prf(output) => Ok(KdfInput(output, p.vaultId, FIDO2_WRAP_INFO))
    case TpmSecret(ikm) => Ok(KdfInput(ikm, p.vaultId, TPM_WRAP_INFO))
  }

  /** The wrapping key a secret stands for. */
  function KeyOf(s: Suite, secret: Secret, p: Params): Result<Bytes> {
    var x :- InputOf(s, secret, p);
    Ok(Derive(s, x))
  }

  /** The stanza holds `dk` sealed under the owner's key, behind a well-formed tail. */
  ghost predicate Wraps(s: Suite, st: Stanza, o: Owner, salt: Bytes, vaultId: Bytes, dk: Bytes) {
    var key, at := KeyOf(s, o.secret, Params(salt, vaultId, o.costs)), o.secret.Offset();
    var end := at + WRAP_NONCE_LEN + WRAPPED_KEY_LEN;
    && key.Ok? && st.kind == o.secret.Kind()
    && end <= |st.data| <= MAX_STANZA_DATA_LEN
    && st.data[at + WRAP_NONCE_LEN..end] == s.xseal(key.value, st.data[at..at + WRAP_NONCE_LEN], dk)
    && (o.secret.Prf? ==> Fido2Extra.Parse(s, st.data[end..]).Ok?)
    && (o.secret.TpmSecret? ==> TpmExtra.Parse(st.data[end..]).Ok?)
  }

  lemma SealedKeyWraps(s: Suite, st: Stanza, o: Owner, salt: Bytes, vaultId: Bytes, dk: Bytes, nonce: Bytes,
                       head: Bytes, tail: Bytes)
    requires Sized(s) && |dk| == DATA_KEY_LEN && |nonce| == WRAP_NONCE_LEN
    requires var key := KeyOf(s, o.secret, Params(salt, vaultId, o.costs));
      key.Ok? && st == Stanza(o.secret.Kind(), head + (nonce + s.xseal(key.value, nonce, dk)) + tail)
    requires |head| == o.secret.Offset() && |tail| <= 2055
    requires o.secret.Prf? ==> Fido2Extra.Parse(s, tail).Ok?
    requires o.secret.TpmSecret? ==> TpmExtra.Parse(tail).Ok?
    ensures Wraps(s, st, o, salt, vaultId, dk)
  {
    var at := o.secret.Offset();
    var end := at + WRAP_NONCE_LEN + WRAPPED_KEY_LEN;
    var key := KeyOf(s, o.secret, Params(salt, vaultId, o.costs)).value;
    assert st.data[at..at + WRAP_NONCE_LEN] == nonce;
    assert st.data[at + WRAP_NONCE_LEN..end] == s.xseal(key, nonce, dk);
    assert st.data[end..] == tail;
  }

  /** A drawn nonce has the length asked for. */
  ghost predicate Drawn(nonce: Option<Bytes>, n: nat) { nonce.Some? ==> |nonce.value| == n }

  lemma WrapPasswordWraps(s: Suite, dk: Bytes, pw: Bytes, p: Params, nonce: Option<Bytes>)
    requires Sized(s) && |dk| == DATA_KEY_LEN && Drawn(nonce, WRAP_NONCE_LEN)
    requires WrapPassword(s, dk, pw, p, nonce).Ok?
    ensures Wraps(s, WrapPassword(s, dk, pw, p, nonce).value, Owner(Password(pw), p.costs), p.salt, p.vaultId, dk)
  {
    var st := WrapPassword(s, dk, pw, p, nonce).value;
    assert st.data == [] + st.data + [];
    SealedKeyWraps(s, st, Owner(Password(pw), p.costs), p.salt, p.vaultId, dk, nonce.value, [], []);
  }

  lemma WrapYubiKeyWraps(s: Suite, dk: Bytes, pw: Bytes, response: Bytes, challenge: Bytes, p: Params,
                         nonce: Option<Bytes>)
    requires Sized(s) && |dk| == DATA_KEY_LEN && Drawn(nonce, WRAP_NONCE_LEN) && |challenge| == CHALLENGE_LEN
    requires WrapYubiKey(s, dk, pw, response, challenge, p, nonce).Ok?
    ensures var st := WrapYubiKey(s, dk, pw, response, challenge, p, nonce).value;
      && Wraps(s, st, Owner(PasswordAndYubiKey(pw, response), p.costs), p.salt, p.vaultId, dk)
      && YubiKeyChallenge(st) == Ok(challenge)
  {
    var st := WrapYubiKey(s, dk, pw, response, challenge, p, nonce).value;
    assert st.data == st.data + [];
    SealedKeyWraps(s, st, Owner(PasswordAndYubiKey(pw, response), p.costs), p.salt, p.vaultId, dk, nonce.value,
        challenge, []);
  }

  lemma WrapKeyfileWraps(s: Suite, dk: Bytes, pw: Bytes, keyfile: Bytes, p: Params, nonce: Option<Bytes>)
    requires Sized(s) && |dk| == DATA_KEY_LEN && Drawn(nonce, WRAP_NONCE_LEN)
    requires WrapKeyfile(s, dk, pw, keyfile, p, nonce).Ok?
    ensures Wraps(s, WrapKeyfile(s, dk, pw, keyfile, p, nonce).value, Owner(PasswordAndKeyfile(pw, keyfile), p.costs),
                  p.salt, p.vaultId, dk)
  {
    var st := WrapKeyfile(s, dk, pw, keyfile, p, nonce).value;
    assert st.data == [] + st.data + [];
    SealedKeyWraps(s, st, Owner(PasswordAndKeyfile(pw, keyfile), p.costs), p.salt, p.vaultId, dk, nonce.value, [], []);
  }

  lemma WrapFido2Wraps(s: Suite, dk: Bytes, prfOutput: Bytes, salt: Bytes, vaultId: Bytes, costs: Costs,
                       extra: Fido2Extra, nonce: Option<Bytes>)
    requires Sized(s) && |dk| == DATA_KEY_LEN && Drawn(nonce, WRAP_NONCE_LEN) && extra.Typed(s)
    requires WrapFido2(s, dk, prfOutput, vaultId, extra, nonce).Ok?
    ensures Wraps(s, WrapFido2(s, dk, prfOutput, vaultId, extra, nonce).value, Owner(Prf(prfOutput), costs), salt,
      vaultId, dk)
  {
    var st := WrapFido2(s, dk, prfOutput, vaultId, extra, nonce).value;
    Fido2PrintParse(s, extra);
    var sealed := nonce.value + s.xseal(Fido2Key(s, prfOutput, vaultId), nonce.value, dk);
    assert [] + sealed == sealed;
    SealedKeyWraps(s, st, Owner(Prf(prfOutput), costs), salt, vaultId, dk, nonce.value, [], extra.Serialize().value);
  }

  lemma WrapTpmWraps(s: Suite, dk: Bytes, tpmIkm: Bytes, salt: Bytes, vaultId: Bytes, costs: Costs,
                     extra: TpmExtra, nonce: Option<Bytes>)
    requires Sized(s) && |dk| == DATA_KEY_LEN && Drawn(nonce, WRAP_NONCE_LEN)
    requires WrapTpm(s, dk, tpmIkm, vaultId, extra, nonce).Ok?
    ensures Wraps(s, WrapTpm(s, dk, tpmIkm, vaultId, extra, nonce).value, Owner(TpmSecret(tpmIkm), costs), salt,
      vaultId, dk)
  {
    var st := WrapTpm(s, dk, tpmIkm, vaultId, extra, nonce).value;
    TpmPrintParse(extra);
    var sealed := nonce.value + s.xseal(TpmKey(s, tpmIkm, vaultId), nonce.value, dk);
    assert [] + sealed == sealed;
    SealedKeyWraps(s, st, Owner(TpmSecret(tpmIkm), costs), salt, vaultId, dk, nonce.value, [], extra.Serialize().value);
  }

  // ---------------------------------------------------------------- ideal wrapping

  /** The finitely many passwords, keyfiles and HKDF inputs an ideal law speaks of. */
  datatype Universe = Universe(passwords: set<Bytes>, keyfiles: set<Bytes>, inputs: set<KdfInput>)

  /**
   The primitives do not confuse the secrets in play: Argon2id has no collision on the passwords,
   SHA-256 none on the keyfiles, HKDF none on the inputs, and a key sealed under a wrapping key derived
   from one input does not open under that of another. Argon2id accepts or refuses cost parameters
   whatever the password.
   */
  ghost predicate Ideal(s: Suite, u: Universe) {
    && (forall p, q, salt, c, d ::
          p in u.passwords && q in u.passwords
          && s.argon2id(s.nfc(p), salt, c).Ok? && s.argon2id(s.nfc(q), salt, d).Ok?
          && s.argon2id(s.nfc(p), salt, c).value == s.argon2id(s.nfc(q), salt, d).value
          ==> s.nfc(p) == s.nfc(q) && c == d)
    && (forall f, g :: f in u.keyfiles && g in u.keyfiles && s.sha256(f) == s.sha256(g) ==> f == g)
    && (forall x, y :: x in u.inputs && y in u.inputs && Derive(s, x) == Derive(s, y) ==> x == y)
    && (forall x, y, n, p :: x in u.inputs && y in u.inputs && x != y ==>
          s.xopen(Derive(s, y), n, s.xseal(Derive(s, x), n, p)).None?)
    && Unwraps(s)
    && ArgonUniform(s)
  }

  ghost predicate ArgonUniform(s: Suite) {
    forall p, q, a, b, c :: s.argon2id(p, a, c).Ok? <==> s.argon2id(q, b, c).Ok?
  }

  /** The secret, and what its key is derived from, are among those the ideal laws speak of. */
  ghost predicate Among(s: Suite, u: Universe, secret: Secret, p: Params) {
    && (secret.UsesPassword() ==> secret.pw in u.passwords)
    && (secret.PasswordAndKeyfile? ==> secret.keyfile in u.keyfiles)
    && (InputOf(s, secret, p).Ok? ==> InputOf(s, secret, p).value in u.inputs)
  }

  /** The attempt presents what the stanza was wrapped under, under the same costs. */
  ghost predicate Matches(s: Suite, o: Owner, attempt: Secret, costs: Costs) {
    match (o.secret, attempt)
    case (Password(pw), Password(try)) => s.nfc(pw) == s.nfc(try) && o.costs == costs
    case (PasswordAndYubiKey(pw, r), PasswordAndYubiKey(try, answer)) =>
      s.nfc(pw) == s.nfc(try) && r == answer && o.costs == costs
    case (PasswordAndKeyfile(pw, f), PasswordAndKeyfile(try, file)) =>
      s.nfc(pw) == s.nfc(try) && f == file && o.costs == costs
    case (Prf(x), Prf(y)) => x == y
    case (TpmSecret(x), TpmSecret(y)) => x == y
    case _ => false
  }

  /** Two secrets of one kind derive the same wrapping key exactly when they match: neither factor alone will do. */
  lemma KeysSeparate(s: Suite, u: Universe, o: Owner, attempt: Secret, p: Params)
    requires Sized(s) && Ideal(s, u)
    requires Among(s, u, o.secret, p.(costs := o.costs)) && Among(s, u, attempt, p)
    requires o.secret.Kind() == attempt.Kind()
    requires KeyOf(s, o.secret, p.(costs := o.costs)).Ok? && KeyOf(s, attempt, p).Ok?
    ensures KeyOf(s, o.secret, p.(costs := o.costs)) == KeyOf(s, attempt, p) <==> Matches(s, o, attempt, p.costs)
  {
    if KeyOf(s, o.secret, p.(costs := o.costs)) == KeyOf(s, attempt, p) {
      assert InputOf(s, o.secret, p.(costs := o.costs)) == InputOf(s, attempt, p);
      match o.secret
      case PasswordAndYubiKey(pw, r) =>
        SplitUnique(PasswordIkm(s, pw, p.(costs := o.costs)).value, r, PasswordIkm(s, attempt.pw, p).value,
            attempt.response);
      case PasswordAndKeyfile(pw, f) =>
        SplitUnique(PasswordIkm(s, pw, p.(costs := o.costs)).value, s.sha256(f),
                    PasswordIkm(s, attempt.pw, p).value, s.sha256(attempt.keyfile));
      case _ =>
    }
  }

  /** Unwrapping by whichever function the kind of secret calls for. */
  function Unwrap(s: Suite, st: Stanza, attempt: Secret, p: Params): Result<Bytes> {
    match attempt
    case Password(pw) => UnwrapPassword(s, st, pw, p)
    case PasswordAndYubiKey(pw, r) => UnwrapYubiKey(s, st, pw, r, p)
    case PasswordAndKeyfile(pw, f) => UnwrapKeyfile(s, st, pw, f, p)
    case Prf(output) => UnwrapFido2(s, st, output, p.vaultId)
    case TpmSecret(ikm) => UnwrapTpm(s, st, ikm, p.vaultId)
  }

  /** FIDO2 stanzas are also bound to the vault by a salt hash, which wrapping does not check. */
  ghost predicate SaltBound(s: Suite, st: Stanza, vaultId: Bytes) {
    st.kind == FIDO2 && |st.data| >= WRAP_NONCE_LEN + WRAPPED_KEY_LEN ==>
      var extra := Fido2Extra.Parse(s, st.data[WRAP_NONCE_LEN + WRAPPED_KEY_LEN..]);
      extra.Ok? && extra.value.saltHash == HardwareSalt(s, vaultId)
  }

  /**
   A stanza opens exactly for its owner's secrets under the header's costs, and to the data key it
   wraps; every other attempt gets the one ambiguous error.
   */
  lemma UnwrapExactly(s: Suite, u: Universe, st: Stanza, o: Owner, attempt: Secret, p: Params, dk: Bytes)
    requires Sized(s) && Ideal(s, u) && |dk| == DATA_KEY_LEN
    requires Wraps(s, st, o, p.salt, p.vaultId, dk) && o.secret.Kind() == attempt.Kind()
    requires Among(s, u, o.secret, p.(costs := o.costs)) && Among(s, u, attempt, p)
    requires KeyOf(s, attempt, p).Ok?
    ensures Unwrap(s, st, attempt, p) ==
            if Matches(s, o, attempt, p.costs) && SaltBound(s, st, p.vaultId) then Ok(dk) else Err(HeaderAuth)
  {
    KeysSeparate(s, u, o, attempt, p);
    assert p.(costs := o.costs) == Params(p.salt, p.vaultId, o.costs);
    var key, at := KeyOf(s, attempt, p).value, o.secret.Offset();
    var nonce := st.data[at..at + WRAP_NONCE_LEN];
    var end := at + WRAP_NONCE_LEN + WRAPPED_KEY_LEN;
    assert OpenKey(s, key, st.data, at) == if Matches(s, o, attempt, p.costs) then Ok(dk) else Err(HeaderAuth);
  }
}
