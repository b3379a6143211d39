/**
 Unlocking: which secrets open which header, and what that makes of enrolment, rotation and cost
 changes (the search of `unwrap_data_key` in vault.rs and sealed.rs).
 */
module Unlock {
  import opened Bytes
  import opened Primitives
  import opened Headers
  import opened Envelope
  import opened Keyring

  /** Try each password stanza in turn; the error of the last failure is what remains. */
  function TryPasswords(s: Suite, a: seq<Stanza>, pw: Bytes, p: Params, last: Error): Result<Bytes> {
    if a == [] then Err(last)
    else if a[0].kind != PASSWORD then TryPasswords(s, a[1..], pw, p, last)
    else
      match UnwrapPassword(s, a[0], pw, p)
      case Ok(dk) => Ok(dk)
      case Err(e) => TryPasswords(s, a[1..], pw, p, e)
  }

  method TryPasswordStanzas(s: Suite, stanzas: seq<Stanza>, pw: Bytes, p: Params) returns (r: Result<Bytes>)
    ensures r == TryPasswords(s, stanzas, pw, p, HeaderAuth)
  {
    var last := HeaderAuth;
    assert stanzas[0..] == stanzas;
    for i := 0 to |stanzas|
      invariant TryPasswords(s, stanzas, pw, p, HeaderAuth) == TryPasswords(s, stanzas[i..], pw, p, last)
    {
      assert stanzas[i..][1..] == stanzas[i + 1..];
      if stanzas[i].kind == PASSWORD {
        match UnwrapPassword(s, stanzas[i], pw, p) {
          case Ok(dk) => return Ok(dk);
          case Err(e) => last := e;
        }
      }
    }
    r := Err(last);
  }

  /** The composite stanza when its second factor is offered and there is one, else the password stanzas. */
  function UnwrapDataKey(s: Suite, h: Header, pw: Bytes, hw: Option<Responder>, keyfile: Option<Bytes>): Result<Bytes> {
    var p := ParamsOf(h);
    if hw.Some? && Has(h.stanzas, PW_YUBIKEY) then
      var st, respond := h.stanzas[Find(h.stanzas, PW_YUBIKEY).value], hw.value;
      var challenge :- YubiKeyChallenge(st);
      var response :- respond(challenge);
      UnwrapYubiKey(s, st, pw, response, p)
    else if keyfile.Some? && Has(h.stanzas, PW_KEYFILE) then
      UnwrapKeyfile(s, h.stanzas[Find(h.stanzas, PW_KEYFILE).value], pw, keyfile.value, p)
    else TryPasswords(s, h.stanzas, pw, p, HeaderAuth)
  }

  // ---------------------------------------------------------------- the password path

  /** Everything wrapped in the ring, under the costs it was wrapped under, is within the ideal laws. */
  ghost predicate Covered(s: Suite, u: Universe, k: Ring) {
    forall i {:trigger k.owners[i]} :: 0 <= i < |k.owners| ==>
      Among(s, u, k.owners[i].secret, k.Params().(costs := k.owners[i].costs))
  }

  /** Some password stanza from `i` on was wrapped under this password and the header's costs. */
  ghost predicate SomePasswordMatches(s: Suite, k: Ring, i: nat, pw: Bytes)
    requires |k.owners| == |k.header.stanzas|
  {
    exists j {:trigger k.owners[j]} :: i <= j < |k.owners| && Matches(s, k.owners[j], Password(pw), k.header.costs)
  }

  lemma {:induction false} TryPasswordsExactly(s: Suite, u: Universe, k: Ring, i: nat, pw: Bytes)
    requires Sized(s) && Ideal(s, u) && |k.dataKey| == DATA_KEY_LEN && AllWrap(s, k) && Covered(s, u, k)
    requires Among(s, u, Password(pw), k.Params()) && PasswordKey(s, pw, k.Params()).Ok?
    requires i <= |k.header.stanzas|
    ensures TryPasswords(s, k.header.stanzas[i..], pw, k.Params(), HeaderAuth) ==
            if SomePasswordMatches(s, k, i, pw) then Ok(k.dataKey) else Err(HeaderAuth)
    decreases |k.header.stanzas| - i
  {
    if i < |k.header.stanzas| {
      var st, o := k.header.stanzas[i], k.owners[i];
      TryPasswordsExactly(s, u, k, i + 1, pw);
      assert k.header.stanzas[i..][1..] == k.header.stanzas[i + 1..];
      MatchesFromHere(s, k, i, pw);
      if st.kind == PASSWORD {
        UnwrapExactly(s, u, st, o, Password(pw), k.Params(), k.dataKey);
      }
    }
  }

  lemma MatchesFromHere(s: Suite, k: Ring, i: nat, pw: Bytes)
    requires AllWrap(s, k) && i < |k.owners|
    ensures SomePasswordMatches(s, k, i, pw)
      <==> Matches(s, k.owners[i], Password(pw), k.header.costs) || SomePasswordMatches(s, k, i + 1, pw)
    ensures Matches(s, k.owners[i], Password(pw), k.header.costs) ==> k.header.stanzas[i].kind == PASSWORD
  {
    assert Wraps(s, k.header.stanzas[i], k.owners[i], k.header.salt, k.header.vaultId, k.dataKey);
  }

  /** The header's costs are usable: some password was once stretched under them. */
  lemma CostsUsable(s: Suite, u: Universe, k: Ring, pw: Bytes)
    requires Sized(s) && Ideal(s, u) && Inv(s, k)
    ensures PasswordIkm(s, pw, k.Params()).Ok?
  {
    ShapeBounds(s, k);
    var i := Find(k.header.stanzas, PASSWORD).value;
    var o := k.owners[i];
    assert Wraps(s, k.header.stanzas[i], o, k.header.salt, k.header.vaultId, k.dataKey);
  }

  /**
   The password path of any reachable vault opens exactly for the passwords of its current password
   stanzas, gives the data key, and gives the one ambiguous error otherwise.
   */
  lemma PasswordPathExactly(s: Suite, u: Universe, k: Ring, pw: Bytes)
    requires Sized(s) && Ideal(s, u) && Inv(s, k) && Covered(s, u, k) && Among(s, u, Password(pw), k.Params())
    ensures UnwrapDataKey(s, k.header, pw, None, None) ==
            if SomePasswordMatches(s, k, 0, pw) then Ok(k.dataKey) else Err(HeaderAuth)
  {
    CostsUsable(s, u, k, pw);
    TryPasswordsExactly(s, u, k, 0, pw);
    assert k.header.stanzas[0..] == k.header.stanzas;
  }

  /** `open_fido2` and `open_tpm`: the first stanza of the secret's kind, and no password. */
  function UnwrapHardware(s: Suite, h: Header, attempt: Secret): Result<Bytes> {
    match Find(h.stanzas, attempt.Kind())
    case None => Err(HeaderAuth)
    case Some(i) => Envelope.Unwrap(s, h.stanzas[i], attempt, ParamsOf(h))
  }

  /**
   The hardware path of any reachable vault opens exactly for the secret its stanza of that kind was wrapped
   under, whatever has become of costs and passwords since, as long as a FIDO2 stanza is bound to this vault.
   */
  lemma HardwarePathExactly(s: Suite, u: Universe, k: Ring, attempt: Secret)
    requires Sized(s) && Ideal(s, u) && Inv(s, k) && Covered(s, u, k) && Among(s, u, attempt, k.Params())
    requires attempt.Prf? || attempt.TpmSecret?
    ensures UnwrapHardware(s, k.header, attempt) ==
      match Find(k.header.stanzas, attempt.Kind())
      case None => Err(HeaderAuth)
      case Some(i) =>
        if k.owners[i].secret == attempt && SaltBound(s, k.header.stanzas[i], k.header.vaultId) then Ok(k.dataKey)
        else Err(HeaderAuth)
  {
    match Find(k.header.stanzas, attempt.Kind())
    case None =>
    case Some(i) =>
      var st, o := k.header.stanzas[i], k.owners[i];
      assert Wraps(s, st, o, k.header.salt, k.header.vaultId, k.dataKey);
      UnwrapExactly(s, u, st, o, attempt, k.Params(), k.dataKey);
  }

  /** A password stanza opens under its own password and costs, for any correct primitives. */
  lemma OwnPasswordOpens(s: Suite, st: Stanza, o: Owner, salt: Bytes, vaultId: Bytes, dk: Bytes)
    requires Sized(s) && Unwraps(s) && |dk| == DATA_KEY_LEN
    requires Wraps(s, st, o, salt, vaultId, dk) && o.secret.Password?
    ensures UnwrapPassword(s, st, o.secret.pw, Params(salt, vaultId, o.costs)) == Ok(dk)
  {
    var key := PasswordKey(s, o.secret.pw, Params(salt, vaultId, o.costs)).value;
    assert s.xopen(key, st.data[..WRAP_NONCE_LEN], s.xseal(key, st.data[..WRAP_NONCE_LEN], dk)) == Some(dk);
    assert st.data[0..WRAP_NONCE_LEN] == st.data[..WRAP_NONCE_LEN];
  }

  /** Stanzas of other kinds are passed over. */
  lemma {:induction false} TryPasswordsSkips(s: Suite, a: seq<Stanza>, i: nat, pw: Bytes, p: Params, last: Error)
    requires i < |a| && forall j :: 0 <= j < i ==> a[j].kind != PASSWORD
    ensures TryPasswords(s, a, pw, p, last) == TryPasswords(s, a[i..], pw, p, last)
  {
    if i > 0 {
      TryPasswordsSkips(s, a[1..], i - 1, pw, p, last);
      assert a[1..][i - 1..] == a[i..];
    } else {
      assert a[0..] == a;
    }
  }

  /**
   No reachable vault is locked: the password its first password stanza was wrapped under opens it,
   with no second factor, after any run of steps.
   */
  lemma NeverLockedOut(s: Suite, k: Ring) returns (pw: Bytes)
    requires Sized(s) && Unwraps(s) && Inv(s, k)
    ensures Find(k.header.stanzas, PASSWORD).Some?
    ensures k.owners[Find(k.header.stanzas, PASSWORD).value] == Owner(Password(pw), k.header.costs)
    ensures UnwrapDataKey(s, k.header, pw, None, None) == Ok(k.dataKey)
  {
    ShapeBounds(s, k);
    var i := Find(k.header.stanzas, PASSWORD).value;
    assert Wraps(s, k.header.stanzas[i], k.owners[i], k.header.salt, k.header.vaultId, k.dataKey);
    pw := k.owners[i].secret.pw;
    TryPasswordsSkips(s, k.header.stanzas, i, pw, k.Params(), HeaderAuth);
    OwnPasswordOpens(s, k.header.stanzas[i], k.owners[i], k.header.salt, k.header.vaultId, k.dataKey);
  }

  // ---------------------------------------------------------------- two factors

  /** A composite stanza for both factors and a recovery stanza, both current; nothing else. */
  ghost predicate TwoFactor(s: Suite, k: Ring, secret: Secret, code: Bytes) {
    && Inv(s, k)
    && (secret.PasswordAndYubiKey? || secret.PasswordAndKeyfile?)
    && k.owners == [Owner(secret, k.header.costs), Owner(Password(code), k.header.costs)]
  }

  /** The device answers the stored challenge with the response the stanza was wrapped under. */
  ghost predicate Answers(k: Ring, device: Responder, response: Bytes)
    requires |k.header.stanzas| > 0
  {
    var challenge := YubiKeyChallenge(k.header.stanzas[0]);
    challenge.Ok? && device(challenge.value) == Ok(response)
  }

  lemma TwoFactorKinds(s: Suite, k: Ring, secret: Secret, code: Bytes)
    requires TwoFactor(s, k, secret, code)
    ensures |k.header.stanzas| == 2
    ensures k.header.stanzas[0].kind == secret.Kind() && k.header.stanzas[1].kind == PASSWORD
    ensures Find(k.header.stanzas, secret.Kind()) == Some(0) && Find(k.header.stanzas, PASSWORD) == Some(1)
    ensures secret.PasswordAndYubiKey? ==>
      !Has(k.header.stanzas, PW_KEYFILE) && YubiKeyChallenge(k.header.stanzas[0]).Ok?
    ensures secret.PasswordAndKeyfile? ==> !Has(k.header.stanzas, PW_YUBIKEY)
  {
    assert Wraps(s, k.header.stanzas[0], k.owners[0], k.header.salt, k.header.vaultId, k.dataKey);
    assert Wraps(s, k.header.stanzas[1], k.owners[1], k.header.salt, k.header.vaultId, k.dataKey);
  }

  lemma RecoveryOnly(s: Suite, k: Ring, secret: Secret, code: Bytes, pw: Bytes)
    requires TwoFactor(s, k, secret, code)
    ensures SomePasswordMatches(s, k, 0, pw) <==> s.nfc(code) == s.nfc(pw)
  {
    assert k.owners[1] == Owner(Password(code), k.header.costs);
  }

  /**
   Keyfile vaults, for every attempt: with a keyfile offered, unlocking succeeds exactly for the right
   password together with the right keyfile; without one, exactly for the recovery code. Everything
   else is the one ambiguous error.
   */
  lemma KeyfileAndSemantics(s: Suite, u: Universe, k: Ring, pw0: Bytes, file0: Bytes, code: Bytes,
                            pw: Bytes, file: Bytes, hw: Option<Responder>)
    requires Sized(s) && Ideal(s, u) && TwoFactor(s, k, PasswordAndKeyfile(pw0, file0), code) && Covered(s, u, k)
    requires Among(s, u, PasswordAndKeyfile(pw, file), k.Params()) && Among(s, u, Password(pw), k.Params())
    ensures UnwrapDataKey(s, k.header, pw, hw, Some(file)) ==
            if s.nfc(pw) == s.nfc(pw0) && file == file0 then Ok(k.dataKey) else Err(HeaderAuth)
    ensures UnwrapDataKey(s, k.header, pw, hw, None) ==
            if s.nfc(pw) == s.nfc(code) then Ok(k.dataKey) else Err(HeaderAuth)
  {
    TwoFactorKinds(s, k, PasswordAndKeyfile(pw0, file0), code);
    CostsUsable(s, u, k, pw);
    assert Wraps(s, k.header.stanzas[0], k.owners[0], k.header.salt, k.header.vaultId, k.dataKey);
    UnwrapExactly(s, u, k.header.stanzas[0], k.owners[0], PasswordAndKeyfile(pw, file), k.Params(), k.dataKey);
    PasswordPathExactly(s, u, k, pw);
    RecoveryOnly(s, k, PasswordAndKeyfile(pw0, file0), code, pw);
  }

  /**
   YubiKey vaults, for every attempt: with a device offered, unlocking succeeds exactly for the right
   password together with a device that answers the stored challenge rightly (a device error comes
   back as it is); without one, exactly for the recovery code.
   */
  lemma YubiKeyAndSemantics(s: Suite, u: Universe, k: Ring, pw0: Bytes, response0: Bytes, code: Bytes,
                            challenge: Bytes, pw: Bytes, device: Responder, keyfile: Option<Bytes>)
    requires Sized(s) && Ideal(s, u) && TwoFactor(s, k, PasswordAndYubiKey(pw0, response0), code) && Covered(s, u, k)
    requires Among(s, u, Password(pw), k.Params())
    requires |k.header.stanzas| > 0 && YubiKeyChallenge(k.header.stanzas[0]) == Ok(challenge)
    requires device(challenge).Ok? ==> Among(s, u, PasswordAndYubiKey(pw, device(challenge).value), k.Params())
    ensures UnwrapDataKey(s, k.header, pw, Some(device), keyfile) ==
            match device(challenge)
            case Err(e) => Err(e)
            case Ok(answer) => if s.nfc(pw) == s.nfc(pw0) && answer == response0 then Ok(k.dataKey) else Err(HeaderAuth)
    ensures UnwrapDataKey(s, k.header, pw, None, keyfile) ==
            if s.nfc(pw) == s.nfc(code) then Ok(k.dataKey) else Err(HeaderAuth)
  {
    TwoFactorKinds(s, k, PasswordAndYubiKey(pw0, response0), code);
    CostsUsable(s, u, k, pw);
    assert Wraps(s, k.header.stanzas[0], k.owners[0], k.header.salt, k.header.vaultId, k.dataKey);
    if device(challenge).Ok? {
      var answer := device(challenge).value;
      UnwrapExactly(s, u, k.header.stanzas[0], k.owners[0], PasswordAndYubiKey(pw, answer), k.Params(), k.dataKey);
    }
    PasswordPathExactly(s, u, k, pw);
    RecoveryOnly(s, k, PasswordAndYubiKey(pw0, response0), code, pw);
  }

  // ---------------------------------------------------------------- what keeps two factors in force

  lemma EnrollKeyfileEstablishes(s: Suite, k: Ring, pw: Bytes, file: Bytes, code: Bytes, n1: Option<Bytes>,
                                 n2: Option<Bytes>)
    requires Sized(s) && Inv(s, k) && Drawn(n1, WRAP_NONCE_LEN) && Drawn(n2, WRAP_NONCE_LEN)
    requires EnrollKeyfile(s, k, pw, file, code, n1, n2).1.Ok?
    ensures TwoFactor(s, EnrollKeyfile(s, k, pw, file, code, n1, n2).0, PasswordAndKeyfile(pw, file), code)
  {
    StepKeeps(s, k, DoEnrollKeyfile(pw, file, code, n1, n2));
  }

  /** A YubiKey vault whose stored challenge `device` answers as it did when the stanza was wrapped. */
  ghost predicate YubiKeyVault(s: Suite, k: Ring, pw: Bytes, device: Responder, code: Bytes) {
    && |k.owners| > 0 && k.owners[0].secret.PasswordAndYubiKey?
    && TwoFactor(s, k, PasswordAndYubiKey(pw, k.owners[0].secret.response), code)
    && |k.header.stanzas| > 0 && Answers(k, device, k.owners[0].secret.response)
  }

  lemma EnrollYubiKeyEstablishes(s: Suite, k: Ring, pw: Bytes, device: Responder, response: Bytes,
                                 challenge: Bytes, code: Bytes,
                                 n1: Option<Bytes>, n2: Option<Bytes>)
    requires Sized(s) && Inv(s, k) && Drawn(n1, WRAP_NONCE_LEN) && Drawn(n2, WRAP_NONCE_LEN)
    requires |challenge| == CHALLENGE_LEN && device(challenge) == Ok(response)
    requires EnrollYubiKey(s, k, pw, response, challenge, code, n1, n2).1.Ok?
    ensures YubiKeyVault(s, EnrollYubiKey(s, k, pw, response, challenge, code, n1, n2).0, pw, device, code)
  {
    StepKeeps(s, k, DoEnrollYubiKey(pw, response, challenge, code, n1, n2));
    WrapYubiKeyWraps(s, k.dataKey, pw, response, challenge, k.Params(), n1);
  }

  /** The secrets a user goes on using: the password, the second factor and the recovery code. */
  datatype Habit = WithKeyfile(pw: Bytes, file: Bytes, code: Bytes) | WithYubiKey(pw: Bytes, device: Responder,
      code: Bytes)

  ghost predicate InForce(s: Suite, k: Ring, h: Habit) {
    match h
    case WithKeyfile(pw, file, code) => TwoFactor(s, k, PasswordAndKeyfile(pw, file), code)
    case WithYubiKey(pw, device, code) => YubiKeyVault(s, k, pw, device, code)
  }

  /** Saves, challenge refreshes and rotations that use the same secrets. */
  ghost predicate Steady(step: Step, h: Habit) {
    match step
    case DoReseed(_, _) => true
    case DoRefresh(pw, response, challenge, _) => h.WithYubiKey? && pw == h.pw && h.device(challenge) == Ok(response)
    case DoRotate(_, opts, _) =>
      && opts.password == h.pw && opts.recoveryCode == Some(h.code)
      && (match h
          case WithKeyfile(_, file, _) => opts.keyfile == Some(file)
          case WithYubiKey(_, device, _) => opts.respond == Some(device))
    case _ => false
  }

  /** Rotation of a two-stanza vault re-wraps the composite and then the recovery stanza. */
  lemma RotatePair(s: Suite, k: Ring, secret: Secret, code: Bytes, newKey: Bytes, opts: RotateOptions, draws: seq<Draw>)
    requires TwoFactor(s, k, secret, code) && opts.recoveryCode.Some?
    requires RewrapFrom(s, k, newKey, opts, draws, 0, 0).Ok?
    ensures var (a, o) := RewrapFrom(s, k, newKey, opts, draws, 0, 0).value;
      && |a| == |o| == 2
      && RewrapOne(s, k, newKey, opts, DrawAt(draws, 0), secret.Kind(), 0) == Ok((a[0], o[0]))
      && o[1] == Owner(Password(opts.recoveryCode.value), k.header.costs)
  {
    TwoFactorKinds(s, k, secret, code);
    assert RewrapFrom(s, k, newKey, opts, draws, 2, 1) == Ok(([], []));
    assert RewrapFrom(s, k, newKey, opts, draws, 1, 0).Ok?;
  }

  lemma RotateKeepsKeyfile(s: Suite, k: Ring, pw: Bytes, file: Bytes, code: Bytes, newKey: Bytes,
                           opts: RotateOptions, draws: seq<Draw>)
    requires TwoFactor(s, k, PasswordAndKeyfile(pw, file), code)
    requires opts.password == pw && opts.recoveryCode == Some(code) && opts.keyfile == Some(file)
    requires RewrapFrom(s, k, newKey, opts, draws, 0, 0).Ok?
    ensures RewrapFrom(s, k, newKey, opts, draws, 0, 0).value.1 ==
            [Owner(PasswordAndKeyfile(pw, file), k.header.costs), Owner(Password(code), k.header.costs)]
  {
    RotatePair(s, k, PasswordAndKeyfile(pw, file), code, newKey, opts, draws);
  }

  lemma RotateKeepsYubiKey(s: Suite, k: Ring, pw: Bytes, device: Responder, code: Bytes, newKey: Bytes,
                           opts: RotateOptions, draws: seq<Draw>)
    requires Sized(s) && YubiKeyVault(s, k, pw, device, code) && |newKey| == DATA_KEY_LEN && DrawsTyped(draws)
    requires opts.password == pw && opts.recoveryCode == Some(code) && opts.respond == Some(device)
    requires RewrapFrom(s, k, newKey, opts, draws, 0, 0).Ok?
    ensures var (a, o) := RewrapFrom(s, k, newKey, opts, draws, 0, 0).value;
      && |a| == |o| == 2 && o[0].secret.PasswordAndYubiKey?
      && o == [Owner(PasswordAndYubiKey(pw, o[0].secret.response), k.header.costs),
          Owner(Password(code), k.header.costs)]
      && YubiKeyChallenge(a[0]).Ok? && device(YubiKeyChallenge(a[0]).value) == Ok(o[0].secret.response)
  {
    RotatePair(s, k, k.owners[0].secret, code, newKey, opts, draws);
    var draw := DrawAt(draws, 0);
    var (st, owner) := RewrapOne(s, k, newKey, opts, draw, PW_YUBIKEY, 0).value;
    WrapYubiKeyWraps(s, newKey, pw, device(draw.challenge.value).value, draw.challenge.value, k.Params(), draw.nonce);
  }

  lemma RotateStaysInForce(s: Suite, k: Ring, h: Habit, newKey: Option<Bytes>, opts: RotateOptions, draws: seq<Draw>)
    requires Sized(s) && InForce(s, k, h) && Steady(DoRotate(newKey, opts, draws), h)
    requires Drawn(newKey, DATA_KEY_LEN) && DrawsTyped(draws)
    ensures InForce(s, Rotate(s, k, newKey, opts, draws).0, h)
  {
    RotateKeeps(s, k, newKey, opts, draws);
    if Rotate(s, k, newKey, opts, draws).1.Ok? {
      match h
      case WithKeyfile(pw, file, code) => RotateKeepsKeyfile(s, k, pw, file, code, newKey.value, opts, draws);
      case WithYubiKey(pw, device, code) => RotateKeepsYubiKey(s, k, pw, device, code, newKey.value, opts, draws);
    }
  }

  lemma RefreshStaysInForce(s: Suite, k: Ring, h: Habit, response: Bytes, challenge: Bytes, nonce: Option<Bytes>)
    requires Sized(s) && InForce(s, k, h) && h.WithYubiKey? && h.device(challenge) == Ok(response)
    requires |challenge| == CHALLENGE_LEN && Drawn(nonce, WRAP_NONCE_LEN)
    ensures InForce(s, RefreshYubiKey(s, k, h.pw, response, challenge, nonce).0, h)
  {
    RefreshKeeps(s, k, h.pw, response, challenge, nonce);
    TwoFactorKinds(s, k, k.owners[0].secret, h.code);
    if RefreshYubiKey(s, k, h.pw, response, challenge, nonce).1.Ok? {
      WrapYubiKeyWraps(s, k.dataKey, h.pw, response, challenge, k.Params(), nonce);
    }
  }

  lemma ReseedStaysInForce(s: Suite, k: Ring, h: Habit, seed: Bytes, prefix: Bytes)
    requires Sized(s) && InForce(s, k, h) && |seed| == 32 && |prefix| == 16
    ensures InForce(s, Reseed(s, k, seed, prefix).0, h)
  {
    ReseedKeeps(s, k, seed, prefix);
  }

  /** Any number of saves, refreshes and rotations with the same secrets leaves both factors in force. */
  lemma {:induction false} SteadyRunStaysInForce(s: Suite, k: Ring, h: Habit, steps: seq<Step>)
    requires Sized(s) && Inv(s, k) && InForce(s, k, h)
    requires forall i :: 0 <= i < |steps| ==> steps[i].Typed(s) && Steady(steps[i], h)
    ensures InForce(s, Run(s, k, steps), h)
    decreases |steps|
  {
    InvOwners(s, k);
    hide Inv, InForce, Rotate, RefreshYubiKey, Reseed;
    if steps != [] {
      StepKeeps(s, k, steps[0]);
      match steps[0] {
        case DoReseed(seed, prefix) => ReseedStaysInForce(s, k, h, seed, prefix);
        case DoRefresh(_, r, c, n) => RefreshStaysInForce(s, k, h, r, c, n);
        case DoRotate(newKey, opts, draws) => RotateStaysInForce(s, k, h, newKey, opts, draws);
      }
      SteadyRunStaysInForce(s, Apply(s, k, steps[0]).0, h, steps[1..]);
    }
  }

  /**
   From keyfile enrolment on, through any number of saves and rotations with the same secrets, the vault
   opens exactly for the password together with the keyfile, or for the recovery code alone.
   */
  lemma KeyfileForLife(s: Suite, u: Universe, k: Ring, pw0: Bytes, file0: Bytes, code: Bytes, n1: Option<Bytes>,
                       n2: Option<Bytes>,
                       steps: seq<Step>, pw: Bytes, file: Bytes) returns (now: Ring)
    requires Sized(s) && Ideal(s, u) && Inv(s, k) && Drawn(n1, WRAP_NONCE_LEN) && Drawn(n2, WRAP_NONCE_LEN)
    requires EnrollKeyfile(s, k, pw0, file0, code, n1, n2).1.Ok?
    requires forall i :: 0 <= i < |steps| ==> steps[i].Typed(s) && Steady(steps[i], WithKeyfile(pw0, file0, code))
    ensures Inv(s, EnrollKeyfile(s, k, pw0, file0, code, n1, n2).0)
    ensures now == Run(s, EnrollKeyfile(s, k, pw0, file0, code, n1, n2).0, steps)
    ensures
      (&& Covered(s, u, now) && Among(s, u, PasswordAndKeyfile(pw, file), now.Params())
       && Among(s, u, Password(pw), now.Params()))
      ==>
      && UnwrapDataKey(s, now.header, pw, None, Some(file)) ==
           (if s.nfc(pw) == s.nfc(pw0) && file == file0 then Ok(now.dataKey) else Err(HeaderAuth))
      && UnwrapDataKey(s, now.header, pw, None, None) ==
           (if s.nfc(pw) == s.nfc(code) then Ok(now.dataKey) else Err(HeaderAuth))
  {
    EnrollKeyfileEstablishes(s, k, pw0, file0, code, n1, n2);
    var start := EnrollKeyfile(s, k, pw0, file0, code, n1, n2).0;
    assert InForce(s, start, WithKeyfile(pw0, file0, code)) && Inv(s, start);
    SteadyRunStaysInForce(s, start, WithKeyfile(pw0, file0, code), steps);
    now := Run(s, start, steps);
    assert TwoFactor(s, now, PasswordAndKeyfile(pw0, file0), code);
    hide Run, UnwrapDataKey, Covered, Among, EnrollKeyfile, Inv, Ideal;
    if Covered(s, u, now) && Among(s, u, PasswordAndKeyfile(pw, file), now.Params())
      && Among(s, u, Password(pw), now.Params()) {
      KeyfileAndSemantics(s, u, now, pw0, file0, code, pw, file, None);
    }
  }

  /** The same for a YubiKey: the password together with a device that answers as the enrolled one does. */
  lemma YubiKeyForLife(s: Suite, u: Universe, k: Ring, pw0: Bytes, device0: Responder, code: Bytes,
                       response: Bytes, challenge: Bytes,
                       n1: Option<Bytes>, n2: Option<Bytes>, steps: seq<Step>, pw: Bytes, device: Responder)
    returns (now: Ring, asked: Bytes)
    requires Sized(s) && Ideal(s, u) && Inv(s, k) && Drawn(n1, WRAP_NONCE_LEN) && Drawn(n2, WRAP_NONCE_LEN)
    requires |challenge| == CHALLENGE_LEN && device0(challenge) == Ok(response)
    requires EnrollYubiKey(s, k, pw0, response, challenge, code, n1, n2).1.Ok?
    requires forall i :: 0 <= i < |steps| ==> steps[i].Typed(s) && Steady(steps[i], WithYubiKey(pw0, device0, code))
    ensures Inv(s, EnrollYubiKey(s, k, pw0, response, challenge, code, n1, n2).0)
    ensures now == Run(s, EnrollYubiKey(s, k, pw0, response, challenge, code, n1, n2).0, steps)
    ensures |now.header.stanzas| > 0 && YubiKeyChallenge(now.header.stanzas[0]) == Ok(asked) && device0(asked).Ok?
    ensures
      (&& Covered(s, u, now) && Among(s, u, Password(pw), now.Params())
       && (device(asked).Ok? ==> Among(s, u, PasswordAndYubiKey(pw, device(asked).value), now.Params())))
      ==>
      && UnwrapDataKey(s, now.header, pw, Some(device), None) ==
           (match device(asked)
            case Err(e) => Err(e)
            case Ok(answer) => if s.nfc(pw) == s.nfc(pw0) && Ok(answer) == device0(asked) then Ok(now.dataKey)
                else Err(HeaderAuth))
      && UnwrapDataKey(s, now.header, pw, None, None) ==
           (if s.nfc(pw) == s.nfc(code) then Ok(now.dataKey) else Err(HeaderAuth))
  {
    EnrollYubiKeyEstablishes(s, k, pw0, device0, response, challenge, code, n1, n2);
    var start := EnrollYubiKey(s, k, pw0, response, challenge, code, n1, n2).0;
    assert InForce(s, start, WithYubiKey(pw0, device0, code)) && Inv(s, start);
    SteadyRunStaysInForce(s, start, WithYubiKey(pw0, device0, code), steps);
    now := Run(s, start, steps);
    assert YubiKeyVault(s, now, pw0, device0, code);
    asked := YubiKeyChallenge(now.header.stanzas[0]).value;
    var answer0 := now.owners[0].secret.response;
    hide Run, UnwrapDataKey, Covered, Among, EnrollYubiKey, Inv, Ideal, YubiKeyChallenge;
    if Covered(s, u, now) && Among(s, u, Password(pw), now.Params())
       && (device(asked).Ok? ==> Among(s, u, PasswordAndYubiKey(pw, device(asked).value), now.Params())) {
      YubiKeyAndSemantics(s, u, now, pw0, answer0, code, asked, pw, device, None);
    }
  }

  // ---------------------------------------------------------------- when rotation succeeds

  /** What the caller must supply for every stanza to be re-wrapped. */
  ghost predicate RotateReady(k: Ring, opts: RotateOptions) {
    && !Has(k.header.stanzas, FIDO2) && !Has(k.header.stanzas, TPM)
    && (HasRecovery(k.header.stanzas) ==> opts.recoveryCode.Some?)
    && (Has(k.header.stanzas, PW_KEYFILE) ==> opts.keyfile.Some?)
    && (Has(k.header.stanzas, PW_YUBIKEY) ==> opts.respond.Some?)
  }

  /** Randomness is available for every stanza, and the device answers every challenge drawn. */
  ghost predicate DrawsSucceed(k: Ring, opts: RotateOptions, draws: seq<Draw>) {
    && |draws| == |k.header.stanzas|
    && (forall i :: 0 <= i < |draws| ==> draws[i].challenge.Some? && draws[i].nonce.Some?)
    && (opts.respond.Some? ==> forall i {:trigger draws[i]} :: 0 <= i < |draws| ==>
        opts.respond.value(draws[i].challenge.value).Ok?)
  }

  /** Whether the stanzas `a` can all be re-wrapped, `pwSeen` password stanzas having gone before. */
  predicate CanRewrap(a: seq<Stanza>, opts: RotateOptions, twoFactor: bool, pwSeen: nat) {
    if a == [] then true
    else if a[0].kind == PASSWORD then
      (twoFactor || pwSeen > 0 ==> opts.recoveryCode.Some?) && CanRewrap(a[1..], opts, twoFactor, pwSeen + 1)
    else
      && (a[0].kind == PW_YUBIKEY || a[0].kind == PW_KEYFILE)
      && (a[0].kind == PW_YUBIKEY ==> opts.respond.Some?)
      && (a[0].kind == PW_KEYFILE ==> opts.keyfile.Some?)
      && CanRewrap(a[1..], opts, twoFactor, pwSeen)
  }

  lemma {:induction false} RewrapSucceeds(s: Suite, k: Ring, newKey: Bytes, opts: RotateOptions, draws: seq<Draw>,
                                          i: nat, pwSeen: nat)
    requires DrawsSucceed(k, opts, draws) && i <= |k.header.stanzas|
    requires forall pw :: PasswordIkm(s, pw, k.Params()).Ok?
    ensures RewrapFrom(s, k, newKey, opts, draws, i, pwSeen).Ok? <==>
            CanRewrap(k.header.stanzas[i..], opts, Is2fa(k.header.stanzas), pwSeen)
    decreases |k.header.stanzas| - i
  {
    var a := k.header.stanzas;
    if i < |a| {
      var kind := a[i].kind;
      RewrapSucceeds(s, k, newKey, opts, draws, i + 1, if kind == PASSWORD then pwSeen + 1 else pwSeen);
      assert a[i..][0] == a[i] && a[i..][1..] == a[i + 1..];
      assert DrawAt(draws, i) == draws[i];
    }
  }

  lemma {:induction false} CanRewrapExactly(a: seq<Stanza>, opts: RotateOptions, twoFactor: bool, pwSeen: nat)
    requires KnownKinds(a)
    ensures CanRewrap(a, opts, twoFactor, pwSeen) <==>
      && !Has(a, FIDO2) && !Has(a, TPM)
      && (Has(a, PW_KEYFILE) ==> opts.keyfile.Some?) && (Has(a, PW_YUBIKEY) ==> opts.respond.Some?)
      && (opts.recoveryCode.Some? || Count(a, PASSWORD) == 0 || (!twoFactor && pwSeen + Count(a, PASSWORD) <= 1))
  {
    if a != [] {
      assert Known(a[0].kind);
      CanRewrapExactly(a[1..], opts, twoFactor, if a[0].kind == PASSWORD then pwSeen + 1 else pwSeen);
    }
  }

  /**
   Randomness and device permitting, rotation of a reachable vault succeeds exactly when there is no
   FIDO2 or TPM stanza and the caller brings the recovery code, keyfile and device the stanzas call for.
   */
  lemma RotateSucceedsExactly(s: Suite, k: Ring, newKey: Bytes, opts: RotateOptions, draws: seq<Draw>)
    requires Sized(s) && ArgonUniform(s) && Inv(s, k) && DrawsSucceed(k, opts, draws)
    ensures Rotate(s, k, Some(newKey), opts, draws).1.Ok? <==> RotateReady(k, opts)
  {
    var a := k.header.stanzas;
    ShapeBounds(s, k);
    var i := Find(a, PASSWORD).value;
    assert Wraps(s, a[i], k.owners[i], k.header.salt, k.header.vaultId, k.dataKey);
    forall pw: Bytes ensures PasswordIkm(s, pw, k.Params()).Ok? {
      assert PasswordIkm(s, k.owners[i].secret.pw, k.Params()).Ok?;
    }
    RewrapSucceeds(s, k, newKey, opts, draws, 0, 0);
    CanRewrapExactly(a, opts, Is2fa(a), 0);
    assert a[0..] == a;
  }
}
