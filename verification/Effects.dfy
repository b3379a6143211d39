/**
 What adding and removing stanzas does to everybody's secrets: which attempts open the vault afterwards, in terms of
 those that did before (add_recovery_stanza, add_fido2_stanza, set_tpm_stanza and remove_stanza_type in vault.rs).
 */
module Effects {
  import opened Bytes
  import opened Primitives
  import opened Headers
  import opened StanzaTails
  import opened Envelope
  import opened Keyring
  import opened Unlock
  import opened CostChange

  /** The ideal laws speak of the vault, and of the attempt on it. */
  ghost predicate Attempted(s: Suite, u: Universe, k: Ring, at: Attempt) {
    Inv(s, k) && Covered(s, u, k) && InPlay(s, u, k, at)
  }

  // ---------------------------------------------------------------- one stanza more

  lemma WrappedMore(s: Suite, owners: seq<Owner>, o: Owner, secret: Secret, costs: Costs)
    ensures Wrapped(s, owners + [o], -1, secret, costs)
      <==> Wrapped(s, owners, -1, secret, costs) || Matches(s, o, secret, costs)
  {
    var more := owners + [o];
    assert more[|owners|] == o;
    assert forall j :: 0 <= j < |owners| ==> more[j] == owners[j];
    hide Matches;
  }

  lemma {:induction false} FindMore(a: seq<Stanza>, st: Stanza, kind: byte)
    ensures Find(a + [st], kind) ==
      if Find(a, kind).Some? then Find(a, kind) else if st.kind == kind then Some(|a|) else None
  {
    if a == [] {
      assert [] + [st] == [st] && [st][1..] == [];
    } else {
      assert (a + [st])[1..] == a[1..] + [st];
      FindMore(a[1..], st, kind);
    }
  }

  lemma PresentedMore(h: Header, h': Header, st: Stanza, at: Attempt)
    requires h'.stanzas == h.stanzas + [st] && st.kind !in {PW_YUBIKEY, PW_KEYFILE}
    ensures Presented(h', at) == Presented(h, at)
  {
    FindMore(h.stanzas, st, PW_YUBIKEY);
    FindMore(h.stanzas, st, PW_KEYFILE);
    hide Find, YubiKeyChallenge;
  }

  /** After adding a recovery code, what opened the vault opens it still, and so does the code; nothing else does. */
  lemma AddRecoveryOpensExactly(s: Suite, u: Universe, k: Ring, code: Bytes, nonce: Option<Bytes>, at: Attempt)
    returns (k': Ring)
    requires Sized(s) && Ideal(s, u) && Drawn(nonce, WRAP_NONCE_LEN) && AddRecovery(s, k, code, nonce).1.Ok?
    requires Attempted(s, u, k, at) && Attempted(s, u, AddRecovery(s, k, code, nonce).0, at)
    ensures k' == AddRecovery(s, k, code, nonce).0
    ensures Unlocked(s, k'.header, at) ==
      if s.nfc(at.pw) == s.nfc(code) then Ok(k.dataKey) else Unlocked(s, k.header, at)
  {
    k' := AddRecovery(s, k, code, nonce).0;
    var st := k'.header.stanzas[|k.header.stanzas|];
    assert !Is2fa(k.header.stanzas) && Presented(k.header, at) == Ok(Password(at.pw));
    PresentedMore(k.header, k'.header, st, at);
    WrappedMore(s, k.owners, Owner(Password(code), k.header.costs), Password(at.pw), k.header.costs);
    hide Inv, Ideal, Covered, InPlay, Unlocked, AddRecovery, Presented, Wrapped;
    UnlockedExactly(s, u, k, at);
    UnlockedExactly(s, u, k', at);
  }

  // ---------------------------------------------------------------- stanzas taken away

  /** What is kept of the owners: those of the stanzas of other kinds. */
  lemma {:induction false} WithoutWrapped(s: Suite, a: seq<Stanza>, o: seq<Owner>, kind: byte, secret: Secret,
      costs: Costs)
    requires |a| == |o|
    ensures Wrapped(s, Without(a, o, kind).1, -1, secret, costs) <==>
      exists j {:trigger o[j]} :: 0 <= j < |o| && a[j].kind != kind && Matches(s, o[j], secret, costs)
    decreases |a|
  {
    hide Matches;
    if a != [] {
      WithoutWrapped(s, a[1..], o[1..], kind, secret, costs);
      var rest := Without(a[1..], o[1..], kind).1;
      ConsWrapped(s, o[0], rest, secret, costs);
      forall j | 0 < j < |o| ensures o[j] == o[1..][j - 1] && a[j] == a[1..][j - 1] {
      }
      if a[0].kind != kind && Matches(s, o[0], secret, costs) {
        assert a[0].kind != kind && Matches(s, o[0], secret, costs);
      }
      if j :| 0 <= j < |o[1..]| && a[1..][j].kind != kind && Matches(s, o[1..][j], secret, costs) {
        assert o[j + 1] == o[1..][j];
      }
    }
  }

  lemma ConsWrapped(s: Suite, first: Owner, rest: seq<Owner>, secret: Secret, costs: Costs)
    ensures Wrapped(s, [first] + rest, -1, secret, costs)
      <==> Matches(s, first, secret, costs) || Wrapped(s, rest, -1, secret, costs)
  {
    var all := [first] + rest;
    assert all[0] == first && forall j :: 0 <= j < |rest| ==> all[j + 1] == rest[j];
    hide Matches;
    if Wrapped(s, rest, -1, secret, costs) {
      var j :| 0 <= j < |rest| && Matches(s, rest[j], secret, costs);
      assert Matches(s, all[j + 1], secret, costs);
    }
    if Wrapped(s, all, -1, secret, costs) {
      var j :| 0 <= j < |all| && Matches(s, all[j], secret, costs);
      assert j > 0 ==> all[j] == rest[j - 1];
    }
  }

  /** A secret of another kind opens a stanza that is left exactly if it opened one before. */
  lemma OthersWrapped(s: Suite, k: Ring, kind: byte, secret: Secret, costs: Costs)
    requires Inv(s, k) && secret.Kind() != kind && |k.owners| == |k.header.stanzas|
    ensures Wrapped(s, Without(k.header.stanzas, k.owners, kind).1, -1, secret, costs)
      <==> Wrapped(s, k.owners, -1, secret, costs)
  {
    WithoutWrapped(s, k.header.stanzas, k.owners, kind, secret, costs);
    forall j | 0 <= j < |k.owners| && Matches(s, k.owners[j], secret, costs) ensures k.header.stanzas[j].kind != kind {
      assert Wraps(s, k.header.stanzas[j], k.owners[j], k.header.salt, k.header.vaultId, k.dataKey);
    }
    hide Inv, Without;
  }

  /** The first stanza of a kind that is kept. */
  lemma KeptFirst(a: seq<Stanza>, o: seq<Owner>, removed: byte, kind: byte)
    requires |a| == |o|
    ensures removed == kind ==> Find(Without(a, o, removed).0, kind).None?
    ensures removed != kind ==>
      && (Find(Without(a, o, removed).0, kind).Some? <==> Find(a, kind).Some?)
      && (Find(a, kind).Some? ==>
          Without(a, o, removed).0[Find(Without(a, o, removed).0, kind).value] == a[Find(a, kind).value])
  {
    var (b, p) := Without(a, o, removed);
    if removed == kind {
      CountWithout(a, o, removed, kind);
      CountZero(b, kind);
    } else {
      WithoutKeepsFirst(a, o, removed, kind);
      FirstOfFind(a, o, kind);
      FirstOfFind(b, p, kind);
    }
  }

  /**
   After removing the stanza that asks for a second factor, an attempt opens the vault exactly when its password
   alone did before; a device or keyfile offered with it is ignored.
   */
  lemma RemovedFactorOpensExactly(s: Suite, u: Universe, k: Ring, kind: byte, at: Attempt) returns (k': Ring)
    requires Sized(s) && Ideal(s, u) && kind in {PW_YUBIKEY, PW_KEYFILE} && Inv(s, k) && RemoveType(k, kind).1.Ok?
    requires Attempted(s, u, k, Attempt(at.pw, None, None)) && Attempted(s, u, RemoveType(k, kind).0, at)
    ensures k' == RemoveType(k, kind).0
    ensures Unlocked(s, k'.header, at) == Unlocked(s, k.header, Attempt(at.pw, None, None))
  {
    k' := RemoveType(k, kind).0;
    OthersWrapped(s, k, kind, Password(at.pw), k.header.costs);
    NoOtherFactor(s, k, kind);
    KeptFirst(k.header.stanzas, k.owners, kind, PW_YUBIKEY);
    KeptFirst(k.header.stanzas, k.owners, kind, PW_KEYFILE);
    assert Presented(k'.header, at) == Ok(Password(at.pw)) == Presented(k.header, Attempt(at.pw, None, None));
    hide Inv, Ideal, Covered, InPlay, Unlocked, RemoveType, Presented, Wrapped;
    UnlockedExactly(s, u, k, Attempt(at.pw, None, None));
    UnlockedExactly(s, u, k', at);
  }

  lemma NoOtherFactor(s: Suite, k: Ring, kind: byte)
    requires Inv(s, k) && |k.owners| == |k.header.stanzas| && RemoveType(k, kind).1.Ok?
    requires kind in {PW_YUBIKEY, PW_KEYFILE}
    ensures !Has(k.header.stanzas, if kind == PW_YUBIKEY then PW_KEYFILE else PW_YUBIKEY)
  {
    hide Encodable, AllWrap, Wraps;
    var a := k.header.stanzas;
    CountZero(a, PW_YUBIKEY);
    CountZero(a, PW_KEYFILE);
    if !Has(a, kind) {
      NothingRemoved(a, k.owners, kind);
    }
  }

  lemma {:induction false} NothingRemoved(a: seq<Stanza>, o: seq<Owner>, kind: byte)
    requires |a| == |o| && !Has(a, kind)
    ensures |Without(a, o, kind).0| == |a|
  {
    if a != [] {
      NothingRemoved(a[1..], o[1..], kind);
    }
  }

  // ---------------------------------------------------------------- hardware added and removed

  predicate IsHardwareStep(step: Step) {
    step.DoAddFido2? || step.DoSetTpm? || (step.DoRemove? && step.kind in {FIDO2, TPM})
  }

  /** Stanzas for hardware come and go without any other way of opening the vault being changed. */
  lemma HardwareStepOpensAsBefore(s: Suite, u: Universe, k: Ring, step: Step, at: Attempt)
    requires Sized(s) && Ideal(s, u) && Inv(s, k) && |k.owners| == |k.header.stanzas|
    requires IsHardwareStep(step) && step.Typed(s) && Apply(s, k, step).1.Ok?
    requires Attempted(s, u, k, at) && Attempted(s, u, Apply(s, k, step).0, at)
    ensures Unlocked(s, Apply(s, k, step).0.header, at) == Unlocked(s, k.header, at)
  {
    var k' := Apply(s, k, step).0;
    HardwareStepPresented(s, k, step, at);
    if Presented(k.header, at).Ok? {
      PresentedUsesPassword(k.header, at);
      HardwareStepWrapped(s, k, step, Presented(k.header, at).value);
    }
    HardwareStepKeepsRest(s, k, step);
    hide Inv, Ideal, Covered, InPlay, Unlocked, Apply, Presented, Wrapped;
    UnlockedExactly(s, u, k, at);
    UnlockedExactly(s, u, k', at);
  }

  lemma HardwareStepKeepsRest(s: Suite, k: Ring, step: Step)
    requires |k.owners| == |k.header.stanzas| && IsHardwareStep(step) && Apply(s, k, step).1.Ok?
    ensures Apply(s, k, step).0.dataKey == k.dataKey && Apply(s, k, step).0.header.costs == k.header.costs
  {
    hide WrapFido2, WrapTpm, Find;
  }

  lemma FindReplaced(a: seq<Stanza>, i: nat, st: Stanza, kind: byte)
    requires i < |a| && a[i].kind == st.kind && st.kind != kind
    ensures Find(a[i := st], kind) == Find(a, kind) && (Find(a, kind).Some? ==> Find(a, kind).value != i)
  {
    FindByKinds(a[i := st], a, kind);
  }

  lemma SetTpmPresented(s: Suite, k: Ring, ikm: Bytes, extra: TpmExtra, nonce: Option<Bytes>, at: Attempt)
    requires |k.owners| == |k.header.stanzas| && SetTpm(s, k, ikm, extra, nonce).1.Ok?
    ensures Presented(SetTpm(s, k, ikm, extra, nonce).0.header, at) == Presented(k.header, at)
  {
    var a, k' := k.header.stanzas, SetTpm(s, k, ikm, extra, nonce).0;
    var st := WrapTpm(s, k.dataKey, ikm, k.header.vaultId, extra, nonce).value;
    var i := Find(a, TPM);
    if i.None? {
      PresentedMore(k.header, k'.header, st, at);
    } else {
      FindReplaced(a, i.value, st, PW_YUBIKEY);
      FindReplaced(a, i.value, st, PW_KEYFILE);
      hide Find, YubiKeyChallenge;
    }
  }

  lemma RemovedPresented(k: Ring, kind: byte, at: Attempt)
    requires |k.owners| == |k.header.stanzas| && RemoveType(k, kind).1.Ok? && kind in {FIDO2, TPM}
    ensures Presented(RemoveType(k, kind).0.header, at) == Presented(k.header, at)
  {
    KeptFirst(k.header.stanzas, k.owners, kind, PW_YUBIKEY);
    KeptFirst(k.header.stanzas, k.owners, kind, PW_KEYFILE);
    hide Find, YubiKeyChallenge, Without;
  }

  lemma HardwareStepPresented(s: Suite, k: Ring, step: Step, at: Attempt)
    requires |k.owners| == |k.header.stanzas| && IsHardwareStep(step) && Apply(s, k, step).1.Ok?
    ensures Presented(Apply(s, k, step).0.header, at) == Presented(k.header, at)
  {
    hide Presented, SetTpm, RemoveType, Find;
    match step
    case DoAddFido2(_, _, _) =>
      var k' := Apply(s, k, step).0;
      PresentedMore(k.header, k'.header, k'.header.stanzas[|k.header.stanzas|], at);
    case DoSetTpm(ikm, extra, n) => SetTpmPresented(s, k, ikm, extra, n, at);
    case DoRemove(kind) => RemovedPresented(k, kind, at);
  }

  lemma SetTpmWrapped(s: Suite, k: Ring, ikm: Bytes, extra: TpmExtra, nonce: Option<Bytes>, secret: Secret,
      costs: Costs)
    requires Inv(s, k) && |k.owners| == |k.header.stanzas| && SetTpm(s, k, ikm, extra, nonce).1.Ok?
    requires secret.UsesPassword()
    ensures Wrapped(s, SetTpm(s, k, ikm, extra, nonce).0.owners, -1, secret, costs)
      <==> Wrapped(s, k.owners, -1, secret, costs)
  {
    var o := Owner(TpmSecret(ikm), k.header.costs);
    var i := Find(k.header.stanzas, TPM);
    if i.None? {
      WrappedMore(s, k.owners, o, secret, costs);
    } else {
      assert Wraps(s, k.header.stanzas[i.value], k.owners[i.value], k.header.salt, k.header.vaultId, k.dataKey);
      var after := k.owners[i.value := o];
      assert !Matches(s, k.owners[i.value], secret, costs) && !Matches(s, o, secret, costs);
      assert forall j :: 0 <= j < |after| && j != i.value ==> after[j] == k.owners[j];
      hide Matches, Inv, Find;
    }
  }

  lemma HardwareStepWrapped(s: Suite, k: Ring, step: Step, secret: Secret)
    requires Inv(s, k) && |k.owners| == |k.header.stanzas| && IsHardwareStep(step) && Apply(s, k, step).1.Ok?
    requires secret.UsesPassword()
    ensures Wrapped(s, Apply(s, k, step).0.owners, -1, secret, k.header.costs)
      <==> Wrapped(s, k.owners, -1, secret, k.header.costs)
  {
    hide Wrapped, SetTpm, WrapFido2, Inv, Find, Without;
    match step
    case DoAddFido2(prf, _, _) => WrappedMore(s, k.owners, Owner(Prf(prf), k.header.costs), secret, k.header.costs);
    case DoSetTpm(ikm, extra, n) => SetTpmWrapped(s, k, ikm, extra, n, secret, k.header.costs);
    case DoRemove(kind) => OthersWrapped(s, k, kind, secret, k.header.costs);
  }

  /** Nor does removing stanzas of one kind touch the hardware of another; what is removed opens the vault no more. */
  lemma RemovedHardwareOpensExactly(s: Suite, k: Ring, kind: byte, attempt: Secret)
    requires |k.owners| == |k.header.stanzas| && RemoveType(k, kind).1.Ok?
    requires attempt.Prf? || attempt.TpmSecret?
    ensures UnwrapHardware(s, RemoveType(k, kind).0.header, attempt) ==
            if attempt.Kind() == kind then Err(HeaderAuth) else UnwrapHardware(s, k.header, attempt)
  {
    KeptFirst(k.header.stanzas, k.owners, kind, attempt.Kind());
    hide Find, Envelope.Unwrap, Without;
  }

  // ---------------------------------------------------------------- what is refused

  /** Some stanza is of this kind. */
  ghost predicate SomeOf(k: Ring, kind: byte) { exists st <- k.header.stanzas :: st.kind == kind }

  lemma SomeOfExactly(k: Ring, kind: byte)
    ensures SomeOf(k, kind) <==> Has(k.header.stanzas, kind)
  {
    if Has(k.header.stanzas, kind) {
      assert k.header.stanzas[Find(k.header.stanzas, kind).value] in k.header.stanzas;
    }
  }

  /**
   Which steps are refused, whatever the randomness and the primitives make of the rest: a recovery code where there
   is a second factor or a second password stanza already; a FIDO2 stanza where there is one, and either hardware
   stanza where there are eight; the removal of password stanzas, and of a kind there is none of.
   */
  lemma RefusedExactly(s: Suite, k: Ring, code: Bytes, prf: Bytes, fido2: Fido2Extra, tpm: TpmExtra, kind: byte,
                       n: Option<Bytes>)
    requires Inv(s, k) && |k.owners| == |k.header.stanzas|
    ensures SomeOf(k, PW_YUBIKEY) || SomeOf(k, PW_KEYFILE) || Count(k.header.stanzas, PASSWORD) >= 2 ==>
      AddRecovery(s, k, code, n) == (k, Err(Hardware))
    ensures !(SomeOf(k, PW_YUBIKEY) || SomeOf(k, PW_KEYFILE) || Count(k.header.stanzas, PASSWORD) >= 2) ==>
      (AddRecovery(s, k, code, n).1.Ok? <==> WrapPassword(s, k.dataKey, code, k.Params(), n).Ok?)
    ensures |k.header.stanzas| >= 8 || SomeOf(k, FIDO2) ==> AddFido2(s, k, prf, fido2, n) == (k, Err(Hardware))
    ensures !(|k.header.stanzas| >= 8 || SomeOf(k, FIDO2)) ==>
      (AddFido2(s, k, prf, fido2, n).1.Ok? <==> WrapFido2(s, k.dataKey, prf, k.header.vaultId, fido2, n).Ok?)
    ensures SetTpm(s, k, prf, tpm, n).1.Ok? <==>
      WrapTpm(s, k.dataKey, prf, k.header.vaultId, tpm, n).Ok? && (SomeOf(k, TPM) || |k.header.stanzas| < 8)
    ensures kind == PASSWORD || !SomeOf(k, kind) ==> RemoveType(k, kind) == (k, Err(Hardware))
    ensures kind != PASSWORD && SomeOf(k, kind) ==> RemoveType(k, kind).1.Ok?
  {
    hide Inv, WrapPassword, WrapFido2, WrapTpm, Count, Find, SomeOf;
    SomeOfExactly(k, PW_YUBIKEY);
    SomeOfExactly(k, PW_KEYFILE);
    SomeOfExactly(k, FIDO2);
    SomeOfExactly(k, TPM);
    SomeOfExactly(k, kind);
    RemovalLength(k.header.stanzas, k.owners, kind);
    hide Without;
  }

  lemma {:induction false} RemovalLength(a: seq<Stanza>, o: seq<Owner>, kind: byte)
    requires |a| == |o|
    ensures |Without(a, o, kind).0| == |a| <==> !Has(a, kind)
  {
    if a != [] {
      RemovalLength(a[1..], o[1..], kind);
    }
  }
}
