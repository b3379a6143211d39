/**
 Opening a vault by a FIDO2 authenticator or a TPM, with no password: from enrolment through any run to a
 whole saved file (open_fido2, open_tpm and open_hw_or in vault.rs).
 */
module Hardware {
  import opened Bytes
  import opened Primitives
  import opened Headers
  import opened StanzaTails
  import opened Envelope
  import opened Keyring
  import opened Unlock
  import opened Body
  import opened Containers
  import opened Payloads
  import opened Vaults

  // ---------------------------------------------------------------- the stanza stays as it was enrolled

  /** The step enrols hardware of this kind. */
  predicate Enrols(step: Step, kind: byte) {
    (step.DoAddFido2? && kind == FIDO2) || (step.DoSetTpm? && kind == TPM)
  }

  /** Any stanza of the kind is this one, under this secret. */
  ghost predicate Lone(a: seq<Stanza>, o: seq<Owner>, kind: byte, st: Stanza, secret: Secret) {
    && |a| == |o|
    && forall i {:trigger a[i]} :: 0 <= i < |a| && a[i].kind == kind ==> a[i] == st && o[i].secret == secret
  }

  ghost predicate StanzaIs(k: Ring, kind: byte, st: Stanza, secret: Secret) {
    Lone(k.header.stanzas, k.owners, kind, st, secret)
  }

  lemma LoneFirst(a: seq<Stanza>, o: seq<Owner>, kind: byte, st: Stanza, secret: Secret)
    requires |a| == |o| && a != []
    ensures Lone(a, o, kind, st, secret) <==>
      (a[0].kind == kind ==> a[0] == st && o[0].secret == secret) && Lone(a[1..], o[1..], kind, st, secret)
  {
    assert forall i :: 0 < i < |a| ==> a[i] == a[1..][i - 1] && o[i] == o[1..][i - 1];
  }

  lemma {:induction false} WithoutStays(a: seq<Stanza>, o: seq<Owner>, removed: byte, kind: byte, st: Stanza,
      secret: Secret)
    requires Lone(a, o, kind, st, secret)
    ensures Lone(Without(a, o, removed).0, Without(a, o, removed).1, kind, st, secret)
  {
    assert |a| == |o|;
    if a != [] {
      hide Lone;
      LoneFirst(a, o, kind, st, secret);
      WithoutStays(a[1..], o[1..], removed, kind, st, secret);
      var (b, p) := Without(a[1..], o[1..], removed);
      if a[0].kind != removed {
        LoneFirst([a[0]] + b, [o[0]] + p, kind, st, secret);
        assert ([a[0]] + b)[1..] == b && ([o[0]] + p)[1..] == p;
      }
    }
  }

  /** A rotation that succeeds re-wrapped no hardware stanza, for there was none. */
  lemma RotateHasNone(s: Suite, k: Ring, newKey: Bytes, opts: RotateOptions, draws: seq<Draw>, kind: byte, i: nat)
    requires Sized(s) && |newKey| == DATA_KEY_LEN && DrawsTyped(draws)
    requires RewrapFrom(s, k, newKey, opts, draws, 0, 0).Ok? && (kind == FIDO2 || kind == TPM)
    requires i < |RewrapFrom(s, k, newKey, opts, draws, 0, 0).value.0|
    ensures RewrapFrom(s, k, newKey, opts, draws, 0, 0).value.0[i].kind != kind
  {
    RewrapFromWraps(s, k, newKey, opts, draws, 0, 0);
    NoneRewrapped(s, k, newKey, opts, draws, 0, 0, i);
    assert k.header.stanzas[0 + i].kind == RewrapFrom(s, k, newKey, opts, draws, 0, 0).value.0[i].kind;
  }

  lemma {:induction false} NoneRewrapped(s: Suite, k: Ring, newKey: Bytes, opts: RotateOptions, draws: seq<Draw>,
      i: nat,
                                         pwSeen: nat, j: nat)
    requires i <= j < |k.header.stanzas| && RewrapFrom(s, k, newKey, opts, draws, i, pwSeen).Ok?
    ensures k.header.stanzas[j].kind in {PASSWORD, PW_YUBIKEY, PW_KEYFILE}
    decreases |k.header.stanzas| - i
  {
    var kind := k.header.stanzas[i].kind;
    if i < j {
      NoneRewrapped(s, k, newKey, opts, draws, i + 1, if kind == PASSWORD then pwSeen + 1 else pwSeen, j);
    }
  }

  lemma LoneAppended(a: seq<Stanza>, o: seq<Owner>, more: Stanza, owner: Owner, kind: byte, st: Stanza, secret: Secret)
    requires Lone(a, o, kind, st, secret) && more.kind != kind
    ensures Lone(a + [more], o + [owner], kind, st, secret)
  {
  }

  lemma LoneReplaced(a: seq<Stanza>, o: seq<Owner>, i: nat, more: Stanza, owner: Owner, kind: byte, st: Stanza,
                     secret: Secret)
    requires Lone(a, o, kind, st, secret) && more.kind != kind && i < |a|
    ensures Lone(a[i := more], o[i := owner], kind, st, secret)
  {
  }

  lemma LonePair(x: Stanza, y: Stanza, o: seq<Owner>, kind: byte, st: Stanza, secret: Secret)
    requires x.kind != kind && y.kind != kind && |o| == 2
    ensures Lone([x, y], o, kind, st, secret)
  {
  }

  /** Hardware stanzas are of one of two kinds. */
  predicate IsHardware(kind: byte) { kind == FIDO2 || kind == TPM }

  lemma EnrollStays(s: Suite, k: Ring, composite: Result<Stanza>, owner: Secret, code: Bytes, nonce: Option<Bytes>,
                    kind: byte, st: Stanza, secret: Secret)
    requires StanzaIs(k, kind, st, secret) && IsHardware(kind)
    requires composite.Ok? ==> composite.value.kind == PW_YUBIKEY || composite.value.kind == PW_KEYFILE
    ensures StanzaIs(Enroll(s, k, composite, owner, code, nonce).0, kind, st, secret)
    ensures Enroll(s, k, composite, owner, code, nonce).0.header.vaultId == k.header.vaultId
  {
    hide Lone;
    var k' := Enroll(s, k, composite, owner, code, nonce).0;
    if Enroll(s, k, composite, owner, code, nonce).1.Ok? {
      LonePair(k'.header.stanzas[0], k'.header.stanzas[1], k'.owners, kind, st, secret);
      assert k'.header.stanzas == [k'.header.stanzas[0], k'.header.stanzas[1]];
    }
  }

  lemma RefreshStays(s: Suite, k: Ring, pw: Bytes, response: Bytes, challenge: Bytes, nonce: Option<Bytes>,
                     kind: byte, st: Stanza, secret: Secret)
    requires |k.owners| == |k.header.stanzas| && StanzaIs(k, kind, st, secret) && IsHardware(kind)
    ensures StanzaIs(RefreshYubiKey(s, k, pw, response, challenge, nonce).0, kind, st, secret)
    ensures RefreshYubiKey(s, k, pw, response, challenge, nonce).0.header.vaultId == k.header.vaultId
  {
    hide Lone;
    var k' := RefreshYubiKey(s, k, pw, response, challenge, nonce).0;
    if RefreshYubiKey(s, k, pw, response, challenge, nonce).1.Ok? {
      LonePair(k'.header.stanzas[0], k'.header.stanzas[1], k'.owners, kind, st, secret);
      assert k'.header.stanzas == [k'.header.stanzas[0], k'.header.stanzas[1]];
    }
  }

  lemma AddStays(s: Suite, k: Ring, step: Step, kind: byte, st: Stanza, secret: Secret)
    requires |k.owners| == |k.header.stanzas| && StanzaIs(k, kind, st, secret) && IsHardware(kind)
      && !Enrols(step, kind)
    requires step.DoAddRecovery? || step.DoAddFido2?
    ensures StanzaIs(Apply(s, k, step).0, kind, st, secret)
    ensures Apply(s, k, step).0.header.vaultId == k.header.vaultId
  {
    hide Lone, SealKey, PasswordKey, Fido2Key;
    var k' := Apply(s, k, step).0;
    var n := |k.header.stanzas|;
    if Apply(s, k, step).1.Ok? {
      assert k'.header.stanzas == k.header.stanzas + [k'.header.stanzas[n]] && k'.owners == k.owners + [k'.owners[n]];
      LoneAppended(k.header.stanzas, k.owners, k'.header.stanzas[n], k'.owners[n], kind, st, secret);
    }
  }

  lemma SetTpmStays(s: Suite, k: Ring, tpmIkm: Bytes, extra: TpmExtra, nonce: Option<Bytes>, st: Stanza, secret: Secret)
    requires |k.owners| == |k.header.stanzas| && StanzaIs(k, FIDO2, st, secret)
    ensures StanzaIs(SetTpm(s, k, tpmIkm, extra, nonce).0, FIDO2, st, secret)
    ensures SetTpm(s, k, tpmIkm, extra, nonce).0.header.vaultId == k.header.vaultId
  {
    hide Lone, SealKey, TpmKey;
    var wrapped := WrapTpm(s, k.dataKey, tpmIkm, k.header.vaultId, extra, nonce);
    if wrapped.Ok? {
      var o := Owner(TpmSecret(tpmIkm), k.header.costs);
      LoneAppended(k.header.stanzas, k.owners, wrapped.value, o, FIDO2, st, secret);
      match Find(k.header.stanzas, TPM)
      case None =>
      case Some(i) => LoneReplaced(k.header.stanzas, k.owners, i, wrapped.value, o, FIDO2, st, secret);
    }
  }

  lemma ChangeKdfStays(s: Suite, k: Ring, pw: Bytes, costs: Costs, nonce: Option<Bytes>, kind: byte, st: Stanza,
                       secret: Secret)
    requires |k.owners| == |k.header.stanzas| && StanzaIs(k, kind, st, secret) && IsHardware(kind)
    ensures StanzaIs(ChangeKdf(s, k, pw, costs, nonce).0, kind, st, secret)
    ensures ChangeKdf(s, k, pw, costs, nonce).0.header.vaultId == k.header.vaultId
  {
    hide Lone, SealKey, PasswordKey;
    var wrapped := WrapPassword(s, k.dataKey, pw, k.Params().(costs := costs), nonce);
    match Find(k.header.stanzas, PASSWORD)
    case None =>
    case Some(i) =>
      if wrapped.Ok? {
        LoneReplaced(k.header.stanzas, k.owners, i, wrapped.value, Owner(Password(pw), costs), kind, st, secret);
      }
  }

  lemma RotateStays(s: Suite, k: Ring, newKey: Option<Bytes>, opts: RotateOptions, draws: seq<Draw>, kind: byte,
                    st: Stanza, secret: Secret)
    requires Sized(s) && Drawn(newKey, DATA_KEY_LEN) && DrawsTyped(draws)
    requires StanzaIs(k, kind, st, secret) && IsHardware(kind)
    ensures StanzaIs(Rotate(s, k, newKey, opts, draws).0, kind, st, secret)
    ensures Rotate(s, k, newKey, opts, draws).0.header.vaultId == k.header.vaultId
  {
    hide RewrapFrom;
    if Rotate(s, k, newKey, opts, draws).1.Ok? {
      forall i | 0 <= i < |RewrapFrom(s, k, newKey.value, opts, draws, 0, 0).value.0|
        ensures RewrapFrom(s, k, newKey.value, opts, draws, 0, 0).value.0[i].kind != kind
      {
        RotateHasNone(s, k, newKey.value, opts, draws, kind, i);
      }
      RewrapFromWraps(s, k, newKey.value, opts, draws, 0, 0);
    }
  }

  /** A step that does not enrol hardware of the kind leaves its stanza as it is, or removes it. */
  lemma StepStays(s: Suite, k: Ring, step: Step, kind: byte, st: Stanza, secret: Secret)
    requires Sized(s) && |k.owners| == |k.header.stanzas| && step.Typed(s) && !Enrols(step, kind) && IsHardware(kind)
    requires StanzaIs(k, kind, st, secret)
    ensures StanzaIs(Apply(s, k, step).0, kind, st, secret)
    ensures Apply(s, k, step).0.header.vaultId == k.header.vaultId
  {
    hide Lone, Rotate, ChangeKdf, SetTpm, AddFido2, AddRecovery, RefreshYubiKey, Enroll, Without, AuthSpan, SealKey;
    match step
    case DoAddRecovery(_, _) => AddStays(s, k, step, kind, st, secret);
    case DoAddFido2(_, _, _) => AddStays(s, k, step, kind, st, secret);
    case DoEnrollYubiKey(pw, r, c, code, n1, n2) =>
      EnrollStays(s, k, WrapYubiKey(s, k.dataKey, pw, r, c, k.Params(), n1), PasswordAndYubiKey(pw, r), code, n2, kind,
          st,
                  secret);
    case DoEnrollKeyfile(pw, f, code, n1, n2) =>
      EnrollStays(s, k, WrapKeyfile(s, k.dataKey, pw, f, k.Params(), n1), PasswordAndKeyfile(pw, f), code, n2, kind, st,
                  secret);
    case DoSetTpm(ikm, extra, n) => SetTpmStays(s, k, ikm, extra, n, st, secret);
    case DoRemove(removed) => WithoutStays(k.header.stanzas, k.owners, removed, kind, st, secret);
    case DoRefresh(pw, r, c, n) => RefreshStays(s, k, pw, r, c, n, kind, st, secret);
    case DoChangeKdf(pw, costs, n) => ChangeKdfStays(s, k, pw, costs, n, kind, st, secret);
    case DoRotate(newKey, opts, draws) => RotateStays(s, k, newKey, opts, draws, kind, st, secret);
    case DoReseed(_, _) =>
  }

  lemma {:induction false} RunStays(s: Suite, k: Ring, steps: seq<Step>, kind: byte, st: Stanza, secret: Secret)
    requires Sized(s) && Inv(s, k) && IsHardware(kind) && StanzaIs(k, kind, st, secret)
    requires forall i :: 0 <= i < |steps| ==> steps[i].Typed(s) && !Enrols(steps[i], kind)
    ensures StanzaIs(Run(s, k, steps), kind, st, secret) && Run(s, k, steps).header.vaultId == k.header.vaultId
    decreases |steps|
  {
    hide Inv, Apply, StanzaIs;
    if steps != [] {
      StepKeeps(s, k, steps[0]);
      InvOwners(s, k);
      StepStays(s, k, steps[0], kind, st, secret);
      RunStays(s, Apply(s, k, steps[0]).0, steps[1..], kind, st, secret);
    }
  }

  // ---------------------------------------------------------------- from enrolment on

  lemma NoneOf(a: seq<Stanza>, o: seq<Owner>, kind: byte, st: Stanza, secret: Secret)
    requires |a| == |o| && !Has(a, kind)
    ensures Lone(a, o, kind, st, secret)
  {
    CountZero(a, kind);
  }

  lemma LoneAdded(a: seq<Stanza>, o: seq<Owner>, st: Stanza, owner: Owner, kind: byte)
    requires |a| == |o| && !Has(a, kind) && st.kind == kind
    ensures Lone(a + [st], o + [owner], kind, st, owner.secret)
  {
    NoneOf(a, o, kind, st, owner.secret);
  }

  lemma LoneExchanged(a: seq<Stanza>, o: seq<Owner>, i: nat, st: Stanza, owner: Owner, kind: byte)
    requires |a| == |o| && Count(a, kind) <= 1 && i < |a| && a[i].kind == st.kind == kind
    ensures Lone(a[i := st], o[i := owner], kind, st, owner.secret)
  {
    forall j | 0 <= j < |a| && a[j].kind == kind ensures j == i {
      OnlyOne(a, kind, i);
      OnlyOne(a, kind, j);
    }
  }

  /** A freshly enrolled FIDO2 stanza is bound to the vault exactly when it was given the vault's own salt hash. */
  lemma EnrolledSalt(s: Suite, dk: Bytes, prf: Bytes, vaultId: Bytes, extra: Fido2Extra, nonce: Option<Bytes>)
    requires Sized(s) && |dk| == DATA_KEY_LEN && Drawn(nonce, WRAP_NONCE_LEN) && extra.Typed(s)
    requires WrapFido2(s, dk, prf, vaultId, extra, nonce).Ok?
    ensures SaltBound(s, WrapFido2(s, dk, prf, vaultId, extra, nonce).value, vaultId)
      <==> extra.saltHash == HardwareSalt(s, vaultId)
  {
    var st := WrapFido2(s, dk, prf, vaultId, extra, nonce).value;
    Fido2PrintParse(s, extra);
    assert st.data[WRAP_NONCE_LEN + WRAPPED_KEY_LEN..] == extra.Serialize().value;
  }

  /** What a hardware secret opens, where any stanza of its kind is this one. */
  lemma LoneOpensExactly(s: Suite, u: Universe, k: Ring, st: Stanza, secret: Secret, attempt: Secret)
    requires Sized(s) && Ideal(s, u) && Inv(s, k) && Covered(s, u, k) && Among(s, u, attempt, k.Params())
    requires (attempt.Prf? || attempt.TpmSecret?) && StanzaIs(k, attempt.Kind(), st, secret)
    ensures UnwrapHardware(s, k.header, attempt) ==
            if Has(k.header.stanzas, attempt.Kind()) && attempt == secret && SaltBound(s, st, k.header.vaultId)
            then Ok(k.dataKey) else Err(HeaderAuth)
  {
    hide Inv, Ideal, Covered, Among, SaltBound, UnwrapHardware;
    HardwarePathExactly(s, u, k, attempt);
  }

  /**
   From the enrolment of a FIDO2 authenticator on, through any run that does not enrol another, its output opens
   the vault exactly as long as the stanza has not been removed, and if enrolment was given the salt hash of this
   vault; no other output ever does. Costs, passwords and second factors have no part in it.
   */
  lemma Fido2ForLife(s: Suite, u: Universe, k: Ring, prf: Bytes, extra: Fido2Extra, nonce: Option<Bytes>,
                     steps: seq<Step>, output: Bytes) returns (now: Ring)
    requires Sized(s) && Ideal(s, u) && Inv(s, k) && extra.Typed(s) && Drawn(nonce, WRAP_NONCE_LEN)
    requires AddFido2(s, k, prf, extra, nonce).1.Ok?
    requires forall i :: 0 <= i < |steps| ==> steps[i].Typed(s) && !steps[i].DoAddFido2?
    ensures Inv(s, AddFido2(s, k, prf, extra, nonce).0)
    ensures now == Run(s, AddFido2(s, k, prf, extra, nonce).0, steps) && Inv(s, now)
    ensures Covered(s, u, now) && Among(s, u, Prf(output), now.Params()) ==>
      UnwrapHardware(s, now.header, Prf(output)) ==
        if Has(now.header.stanzas, FIDO2) && output == prf && extra.saltHash == HardwareSalt(s, k.header.vaultId)
        then Ok(now.dataKey) else Err(HeaderAuth)
  {
    StepKeeps(s, k, DoAddFido2(prf, extra, nonce));
    InvOwners(s, k);
    var start, st := AddFido2(s, k, prf, extra, nonce).0,
        WrapFido2(s, k.dataKey, prf, k.header.vaultId, extra, nonce).value;
    LoneAdded(k.header.stanzas, k.owners, st, Owner(Prf(prf), k.header.costs), FIDO2);
    EnrolledSalt(s, k.dataKey, prf, k.header.vaultId, extra, nonce);
    assert StanzaIs(start, FIDO2, st, Prf(prf)) && Inv(s, start) && start.header.vaultId == k.header.vaultId;
    hide Inv, AddFido2, WrapFido2, StanzaIs, SaltBound, Ideal, Covered, Among, HardwareSalt;
    RunStays(s, start, steps, FIDO2, st, Prf(prf));
    RunKeeps(s, start, steps);
    now := Run(s, start, steps);
    if Covered(s, u, now) && Among(s, u, Prf(output), now.Params()) {
      LoneOpensExactly(s, u, now, st, Prf(prf), Prf(output));
    }
  }

  lemma TpmSet(s: Suite, k: Ring, ikm: Bytes, extra: TpmExtra, nonce: Option<Bytes>) returns (start: Ring, st: Stanza)
    requires Sized(s) && Inv(s, k) && Drawn(nonce, WRAP_NONCE_LEN) && SetTpm(s, k, ikm, extra, nonce).1.Ok?
    ensures start == SetTpm(s, k, ikm, extra, nonce).0 && Inv(s, start) && StanzaIs(start, TPM, st, TpmSecret(ikm))
    ensures forall vaultId :: SaltBound(s, st, vaultId)
  {
    StepKeeps(s, k, DoSetTpm(ikm, extra, nonce));
    InvOwners(s, k);
    start, st := SetTpm(s, k, ikm, extra, nonce).0, WrapTpm(s, k.dataKey, ikm, k.header.vaultId, extra, nonce).value;
    var owner := Owner(TpmSecret(ikm), k.header.costs);
    match Find(k.header.stanzas, TPM) {
      case None => LoneAdded(k.header.stanzas, k.owners, st, owner, TPM);
      case Some(i) => LoneExchanged(k.header.stanzas, k.owners, i, st, owner, TPM);
    }
  }

  /** The same for a TPM, whose stanza is not bound by a salt hash. */
  lemma TpmForLife(s: Suite, u: Universe, k: Ring, ikm: Bytes, extra: TpmExtra, nonce: Option<Bytes>,
                   steps: seq<Step>, presented: Bytes) returns (now: Ring)
    requires Sized(s) && Ideal(s, u) && Inv(s, k) && Drawn(nonce, WRAP_NONCE_LEN)
    requires SetTpm(s, k, ikm, extra, nonce).1.Ok?
    requires forall i :: 0 <= i < |steps| ==> steps[i].Typed(s) && !steps[i].DoSetTpm?
    ensures Inv(s, SetTpm(s, k, ikm, extra, nonce).0)
    ensures now == Run(s, SetTpm(s, k, ikm, extra, nonce).0, steps) && Inv(s, now)
    ensures Covered(s, u, now) && Among(s, u, TpmSecret(presented), now.Params()) ==>
      UnwrapHardware(s, now.header, TpmSecret(presented)) ==
        if Has(now.header.stanzas, TPM) && presented == ikm then Ok(now.dataKey) else Err(HeaderAuth)
  {
    var start, st := TpmSet(s, k, ikm, extra, nonce);
    hide Inv, SetTpm, WrapTpm, StanzaIs, SaltBound, Ideal, Covered, Among;
    RunStays(s, start, steps, TPM, st, TpmSecret(ikm));
    RunKeeps(s, start, steps);
    now := Run(s, start, steps);
    if Covered(s, u, now) && Among(s, u, TpmSecret(presented), now.Params()) {
      LoneOpensExactly(s, u, now, st, TpmSecret(ikm), TpmSecret(presented));
    }
  }

  // ---------------------------------------------------------------- whole files

  /**
   Under ideal MACs, a hardware secret opens a byte string to a data key exactly when it is one of the files saved
   under that key, the secret unwraps it from that file's header, and the payload is within the reader's limits.
   */
  lemma OnlySavedOpensByHardware(s: Suite, saves: seq<Save>, payloads: seq<Payload>, dk: Bytes, attempt: Secret,
      b: Bytes)
    requires Sized(s) && HonestSaves(s, saves, dk) && HeaderVerifiesOnly(s, saves, dk)
    requires PayloadSaves(s, saves, payloads)
    ensures (OpenByHardware(s, b, attempt).Ok? && OpenByHardware(s, b, attempt).value.dataKey == dk) <==>
      exists i {:trigger saves[i]} :: 0 <= i < |saves| && b == FileOf(s, saves[i], dk)
        && KindOf(saves[i].header.magic) == Some(Vault)
        && UnwrapHardware(s, saves[i].header, attempt) == Ok(dk) && Fits(payloads[i])
    ensures forall i {:trigger saves[i]} ::
      0 <= i < |saves| && b == FileOf(s, saves[i], dk) && KindOf(saves[i].header.magic) == Some(Vault)
      && UnwrapHardware(s, saves[i].header, attempt) == Ok(dk) && Fits(payloads[i])
      ==> OpenByHardware(s, b, attempt) == Ok(OpenVault(saves[i].header, dk, Payloads.Resealed(s, payloads[i])))
  {
    OpenByHardwareExactly(s, b, attempt, dk);
    hide HonestSave, FileOf, OpenByHardware, UnwrapHardware, Payloads.Typed, Countable, Fits, Written,
      Payloads.Resealed,
      OpenWithPayload;
    OnlySavedUnder(s, saves, payloads, dk, b);
  }

  lemma OpenByHardwareExactly(s: Suite, b: Bytes, attempt: Secret, dk: Bytes)
    ensures (OpenByHardware(s, b, attempt).Ok? && OpenByHardware(s, b, attempt).value.dataKey == dk) <==>
      && Parse(s, b, None).Ok? && var h := Parse(s, b, None).value;
      && KindOf(h.magic) == Some(Vault) && UnwrapHardware(s, h, attempt) == Ok(dk) && OpenWithPayload(s, h, dk, b).Ok?
    ensures OpenByHardware(s, b, attempt).Ok? && OpenByHardware(s, b, attempt).value.dataKey == dk ==>
      OpenByHardware(s, b, attempt) == OpenWithPayload(s, Parse(s, b, None).value, dk, b)
  {
    hide OpenedPayload, VerifyHmac, UnwrapHardware;
    if Parse(s, b, None).Ok? {
      ParsedSerializes(s, b, None);
    }
  }

  /** A saved vault, opened by hardware: what unwrapping comes to, and then what was saved, within the limits. */
  lemma SavedOpensByHardware(s: Suite, k: Ring, p: Payload, attempt: Secret)
    requires Sized(s) && KindOf(k.header.magic) == Some(Vault) && Payloads.Typed(s, p) && Countable(p)
    requires HonestSave(s, Save(k.header, Written(s, p)), k.dataKey)
    requires UnwrapHardware(s, k.header, attempt).Ok? ==> UnwrapHardware(s, k.header, attempt) == Ok(k.dataKey)
    ensures OpenByHardware(s, File(s, k.header, k.dataKey, Written(s, p)), attempt) ==
            if UnwrapHardware(s, k.header, attempt).Err? then Err(UnwrapHardware(s, k.header, attempt).error)
            else if Fits(p) then Ok(OpenVault(k.header, k.dataKey, Payloads.Resealed(s, p)))
            else Err(BodyMalformed)
  {
    var save := Save(k.header, Written(s, p));
    hide UnwrapHardware, Payloads.Typed, Countable, Fits, Written, Payloads.Resealed, OpenedPayload, VerifyHmac,
      HonestSave;
    HonestFileOpens(s, save, k.dataKey, None);
    SaveOpens(s, save, p, k.dataKey, FileOf(s, save, k.dataKey));
  }

  /** Hardware enrolled once and a vault saved after any run: exactly whose output opens the file. */
  lemma Fido2OpensSavedExactly(s: Suite, u: Universe, k: Ring, prf: Bytes, extra: Fido2Extra, nonce: Option<Bytes>,
                               steps: seq<Step>, output: Bytes, p: Payload) returns (now: Ring)
    requires Sized(s) && Ideal(s, u) && Inv(s, k) && extra.Typed(s) && Drawn(nonce, WRAP_NONCE_LEN)
    requires AddFido2(s, k, prf, extra, nonce).1.Ok? && KindOf(k.header.magic) == Some(Vault)
    requires forall i :: 0 <= i < |steps| ==> steps[i].Typed(s) && !steps[i].DoAddFido2?
    requires Payloads.Typed(s, p) && Countable(p) && Fits(p)
    ensures Inv(s, AddFido2(s, k, prf, extra, nonce).0)
    ensures now == Run(s, AddFido2(s, k, prf, extra, nonce).0, steps)
    ensures
      (&& Covered(s, u, now) && Among(s, u, Prf(output), now.Params())
       && HonestSave(s, Save(now.header, Written(s, p)), now.dataKey))
      ==>
      OpenByHardware(s, File(s, now.header, now.dataKey, Written(s, p)), Prf(output)) ==
        if Has(now.header.stanzas, FIDO2) && output == prf && extra.saltHash == HardwareSalt(s, k.header.vaultId)
        then Ok(OpenVault(now.header, now.dataKey, Payloads.Resealed(s, p))) else Err(HeaderAuth)
  {
    now := Fido2ForLife(s, u, k, prf, extra, nonce, steps, output);
    var start := AddFido2(s, k, prf, extra, nonce).0;
    RunKeepsMagic(s, start, steps);
    assert start.header.magic == k.header.magic;
    hide Inv, AddFido2, Ideal, Covered, Among, HonestSave, OpenByHardware, UnwrapHardware, Run, HardwareSalt,
      Payloads.Typed, Countable, Fits, Written, Payloads.Resealed;
    if Covered(s, u, now) && Among(s, u, Prf(output), now.Params())
       && HonestSave(s, Save(now.header, Written(s, p)), now.dataKey) {
      SavedOpensByHardware(s, now, p, Prf(output));
    }
  }
}
