/**
 What rotating the data key leaves of the secrets: which of them open the vault afterwards (rotate_data_key and
 rewrap_stanzas in vault.rs).
 */
module Rotation {
  import opened Bytes
  import opened Primitives
  import opened Headers
  import opened Envelope
  import opened Keyring
  import opened Unlock
  import opened CostChange

  // ---------------------------------------------------------------- whom each stanza is re-wrapped for

  /** Each stanza is re-wrapped by its own draw, given the password stanzas before it. */
  lemma {:induction false} EachRewrapped(s: Suite, k: Ring, newKey: Bytes, opts: RotateOptions, draws: seq<Draw>,
      i: nat,
                                         pwSeen: nat, j: nat)
    requires i <= j < |k.header.stanzas| && RewrapFrom(s, k, newKey, opts, draws, i, pwSeen).Ok?
    ensures var (a, o) := RewrapFrom(s, k, newKey, opts, draws, i, pwSeen).value;
      && |a| == |o| == |k.header.stanzas| - i
      && RewrapOne(s, k, newKey, opts, DrawAt(draws, j), k.header.stanzas[j].kind,
                   pwSeen + Count(k.header.stanzas[i..j], PASSWORD)) == Ok((a[j - i], o[j - i]))
    decreases |k.header.stanzas| - i
  {
    hide RewrapOne;
    var stanzas := k.header.stanzas;
    RewrapLengths(s, k, newKey, opts, draws, i, pwSeen);
    if i < j {
      var seen := if stanzas[i].kind == PASSWORD then pwSeen + 1 else pwSeen;
      EachRewrapped(s, k, newKey, opts, draws, i + 1, seen, j);
      assert stanzas[i..j][1..] == stanzas[i + 1..j] && stanzas[i..j][0] == stanzas[i];
    } else {
      assert stanzas[i..j] == [] && pwSeen + Count(stanzas[i..j], PASSWORD) == pwSeen;
      var one := RewrapOne(s, k, newKey, opts, DrawAt(draws, i), stanzas[i].kind, pwSeen);
      assert one.Ok? && one == Ok((one.value.0, one.value.1));
    }
  }

  lemma {:induction false} RewrapLengths(s: Suite, k: Ring, newKey: Bytes, opts: RotateOptions, draws: seq<Draw>,
      i: nat,
                                         pwSeen: nat)
    requires i <= |k.header.stanzas| && RewrapFrom(s, k, newKey, opts, draws, i, pwSeen).Ok?
    ensures var (a, o) := RewrapFrom(s, k, newKey, opts, draws, i, pwSeen).value;
      |a| == |o| == |k.header.stanzas| - i
    decreases |k.header.stanzas| - i
  {
    hide RewrapOne;
    if i < |k.header.stanzas| {
      RewrapLengths(s, k, newKey, opts, draws, i + 1, if k.header.stanzas[i].kind == PASSWORD then pwSeen + 1
          else pwSeen);
    }
  }

  ghost predicate PasswordAt(k: Ring, i: int) { 0 <= i < |k.header.stanzas| && k.header.stanzas[i].kind == PASSWORD }

  /** The vault asks for a second factor. */
  ghost predicate TwoFactors(k: Ring) {
    exists i :: 0 <= i < |k.header.stanzas| && k.header.stanzas[i].kind in {PW_YUBIKEY, PW_KEYFILE}
  }

  /** Whom the stanza belongs to that a successful rotation leaves in place of number `j`. */
  ghost predicate RotatedFor(k: Ring, k': Ring, opts: RotateOptions, j: int)
    requires 0 <= j < |k.header.stanzas| == |k'.header.stanzas| == |k'.owners|
  {
    var secret, st := k'.owners[j].secret, k'.header.stanzas[j];
    && k'.owners[j].costs == k.header.costs && st.kind == k.header.stanzas[j].kind
    && if st.kind == PASSWORD then
         if TwoFactors(k) || exists i :: i < j && PasswordAt(k, i)
         then opts.recoveryCode.Some? && secret == Password(opts.recoveryCode.value)
         else secret == Password(opts.password)
       else if st.kind == PW_KEYFILE then
         opts.keyfile.Some? && secret == PasswordAndKeyfile(opts.password, opts.keyfile.value)
       else
         && st.kind == PW_YUBIKEY && opts.respond.Some? && YubiKeyChallenge(st).Ok?
         && var respond := opts.respond.value;
         && respond(YubiKeyChallenge(st).value).Ok?
         && secret == PasswordAndYubiKey(opts.password, respond(YubiKeyChallenge(st).value).value)
  }

  lemma SeenExactly(k: Ring, j: nat)
    requires j <= |k.header.stanzas|
    ensures Count(k.header.stanzas[..j], PASSWORD) > 0 <==> exists i :: i < j && PasswordAt(k, i)
    ensures Is2fa(k.header.stanzas) <==> TwoFactors(k)
  {
    var before := k.header.stanzas[..j];
    CountZero(before, PASSWORD);
    if Has(before, PASSWORD) {
      var i := Find(before, PASSWORD).value;
      assert before[i] == k.header.stanzas[i] && PasswordAt(k, i);
    }
    forall i | i < j && PasswordAt(k, i) ensures Has(before, PASSWORD) {
      assert before[i].kind == PASSWORD;
    }
  }

  lemma OneRewrapped(s: Suite, k: Ring, newKey: Bytes, opts: RotateOptions, draw: Draw, st: Stanza, o: Owner,
                     kind: byte, pwSeen: nat)
    requires Sized(s) && |newKey| == DATA_KEY_LEN
    requires Drawn(draw.challenge, CHALLENGE_LEN) && Drawn(draw.nonce, WRAP_NONCE_LEN)
    requires RewrapOne(s, k, newKey, opts, draw, kind, pwSeen) == Ok((st, o))
    ensures o.costs == k.header.costs && st.kind == kind
    ensures kind == PASSWORD ==>
      if Is2fa(k.header.stanzas) || pwSeen > 0
      then opts.recoveryCode.Some? && o.secret == Password(opts.recoveryCode.value)
      else o.secret == Password(opts.password)
    ensures kind == PW_KEYFILE ==>
      opts.keyfile.Some? && o.secret == PasswordAndKeyfile(opts.password, opts.keyfile.value)
    ensures kind == PW_YUBIKEY ==>
      && opts.respond.Some? && YubiKeyChallenge(st).Ok?
      && var respond := opts.respond.value;
      && respond(YubiKeyChallenge(st).value).Ok?
      && o.secret == PasswordAndYubiKey(opts.password, respond(YubiKeyChallenge(st).value).value)
    ensures kind in {PASSWORD, PW_KEYFILE, PW_YUBIKEY}
  {
    if kind == PW_YUBIKEY {
      var respond := opts.respond.value;
      WrapYubiKeyWraps(s, newKey, opts.password, respond(draw.challenge.value).value, draw.challenge.value, k.Params(),
                       draw.nonce);
    }
  }

  lemma Rotated(s: Suite, k: Ring, newKey: Bytes, opts: RotateOptions, draws: seq<Draw>) returns (k': Ring)
    requires Sized(s) && Inv(s, k) && |newKey| == DATA_KEY_LEN && DrawsTyped(draws)
    requires Rotate(s, k, Some(newKey), opts, draws).1.Ok?
    ensures k' == Rotate(s, k, Some(newKey), opts, draws).0 && Inv(s, k') && k'.dataKey == newKey
    ensures |k.header.stanzas| == |k'.header.stanzas| == |k'.owners| && k'.header.costs == k.header.costs
    ensures forall j :: 0 <= j < |k.header.stanzas| ==> RotatedFor(k, k', opts, j)
  {
    k' := Rotate(s, k, Some(newKey), opts, draws).0;
    RotateKeeps(s, k, Some(newKey), opts, draws);
    InvOwners(s, k');
    hide Inv, Rotate, RotatedFor;
    forall j | 0 <= j < |k.header.stanzas| ensures RotatedFor(k, k', opts, j) {
      RotatedOne(s, k, newKey, opts, draws, j);
    }
  }

  lemma RotatedOne(s: Suite, k: Ring, newKey: Bytes, opts: RotateOptions, draws: seq<Draw>, j: nat)
    requires Sized(s) && |newKey| == DATA_KEY_LEN && DrawsTyped(draws)
    requires Rotate(s, k, Some(newKey), opts, draws).1.Ok? && j < |k.header.stanzas|
    ensures var k' := Rotate(s, k, Some(newKey), opts, draws).0;
      && |k.header.stanzas| == |k'.header.stanzas| == |k'.owners| && k'.header.costs == k.header.costs
      && RotatedFor(k, k', opts, j)
  {
    hide RewrapOne, YubiKeyChallenge;
    EachRewrapped(s, k, newKey, opts, draws, 0, 0, j);
    hide RewrapFrom;
    assert k.header.stanzas[0..j] == k.header.stanzas[..j];
    var k' := Rotate(s, k, Some(newKey), opts, draws).0;
    var pwSeen := Count(k.header.stanzas[..j], PASSWORD);
    SeenExactly(k, j);
    OneRewrapped(s, k, newKey, opts, DrawAt(draws, j), k'.header.stanzas[j], k'.owners[j], k.header.stanzas[j].kind,
                 pwSeen);
    hide TwoFactors, PasswordAt, Is2fa, Rotate;
  }

  // ---------------------------------------------------------------- which attempts open it after a rotation

  ghost predicate TwoPasswords(k: Ring) { exists i, j :: i < j && PasswordAt(k, i) && PasswordAt(k, j) }

  ghost predicate AsksFor(k: Ring, kind: byte) {
    exists i :: 0 <= i < |k.header.stanzas| && k.header.stanzas[i].kind == kind
  }

  /** The rotation succeeded, and the attempt is one the ideal laws speak of. */
  ghost predicate RotatedAttempt(s: Suite, u: Universe, k: Ring, newKey: Bytes, opts: RotateOptions, draws: seq<Draw>,
                                 at: Attempt)
  {
    && Sized(s) && Ideal(s, u) && Inv(s, k) && |newKey| == DATA_KEY_LEN && DrawsTyped(draws)
    && var (k', r) := Rotate(s, k, Some(newKey), opts, draws);
    && r.Ok? && Covered(s, u, k') && InPlay(s, u, k', at)
  }

  /** The stanzas are the old ones' kinds: one password stanza beside a composite one, or passwords alone. */
  lemma RotatedKinds(s: Suite, k: Ring, k': Ring, opts: RotateOptions)
    requires Sized(s) && Inv(s, k) && |k.header.stanzas| == |k'.header.stanzas| == |k'.owners|
    requires forall j :: 0 <= j < |k.header.stanzas| ==> RotatedFor(k, k', opts, j)
    ensures forall kind :: Find(k'.header.stanzas, kind) == Find(k.header.stanzas, kind)
    ensures (exists j :: PasswordAt(k, j)) && |k.header.stanzas| <= 2
    ensures !TwoFactors(k) ==> PasswordAt(k, 0) && (TwoPasswords(k) <==> |k.header.stanzas| >= 2)
    ensures TwoFactors(k) ==> |k.header.stanzas| == 2 && (AsksFor(k, PW_KEYFILE) <==> !AsksFor(k, PW_YUBIKEY))
    ensures TwoFactors(k) ==> exists i :: 0 <= i < 2 && PasswordAt(k, i) && !PasswordAt(k, 1 - i)
  {
    hide Encodable, Wraps, AllWrap;
    var a := k.header.stanzas;
    forall j | 0 <= j < |a| ensures a[j].kind == k'.header.stanzas[j].kind
      && a[j].kind in {PASSWORD, PW_KEYFILE, PW_YUBIKEY} {
      assert RotatedFor(k, k', opts, j);
    }
    hide RotatedFor;
    forall kind: byte ensures Find(k'.header.stanzas, kind) == Find(a, kind) {
      FindByKinds(k'.header.stanzas, a, kind);
    }
    KindsTwo(a);
    CountZero(a, PASSWORD);
    assert PasswordAt(k, Find(a, PASSWORD).value);
    if !TwoFactors(k) {
      forall j | 0 <= j < |a| ensures PasswordAt(k, j) {
      }
      assert |a| >= 2 ==> PasswordAt(k, 0) && PasswordAt(k, 1);
    } else {
      var i :| 0 <= i < 2 && a[i].kind == PASSWORD && a[1 - i].kind != PASSWORD;
      assert PasswordAt(k, i) && !PasswordAt(k, 1 - i);
    }
  }

  /** Two stanzas at most, if all are derived from passwords. */
  lemma KindsTwo(a: seq<Stanza>)
    requires Shape(a) && forall j :: 0 <= j < |a| ==> a[j].kind in {PASSWORD, PW_KEYFILE, PW_YUBIKEY}
    ensures |a| <= 2 && Count(a, PASSWORD) >= 1 && |a| == Count(a, PASSWORD) + Composites(a)
    ensures (exists i :: 0 <= i < |a| && a[i].kind in {PW_YUBIKEY, PW_KEYFILE}) ==>
      && |a| == 2
      && ((exists i :: 0 <= i < |a| && a[i].kind == PW_KEYFILE) <==>
          !exists i :: 0 <= i < |a| && a[i].kind == PW_YUBIKEY)
      && exists i :: 0 <= i < 2 && a[i].kind == PASSWORD && a[1 - i].kind != PASSWORD
  {
    CountsAddUp(a);
    CountZero(a, FIDO2);
    CountZero(a, TPM);
    CountZero(a, PASSWORD);
    CountZero(a, PW_YUBIKEY);
    CountZero(a, PW_KEYFILE);
    if i :| 0 <= i < |a| && a[i].kind in {PW_YUBIKEY, PW_KEYFILE} {
      var p := Find(a, PASSWORD).value;
      assert a == [a[0], a[1]];
      CountsOfPair(a[0], a[1], PASSWORD);
      CountsOfPair(a[0], a[1], PW_YUBIKEY);
      CountsOfPair(a[0], a[1], PW_KEYFILE);
      assert p == 1 - i;
    }
  }

  lemma OutcomeOf(s: Suite, k: Ring, at: Attempt, secret: Secret, j: nat)
    requires Presented(k.header, at) == Ok(secret) && j < |k.owners|
    ensures Matches(s, k.owners[j], secret, k.header.costs) ==> Outcome(s, k, at) == Ok(k.dataKey)
    ensures (forall i :: 0 <= i < |k.owners| ==> !Matches(s, k.owners[i], secret, k.header.costs)) ==>
      Outcome(s, k, at) == Err(HeaderAuth)
  {
  }

  /** What is known of the vault after it, and that an attempt opens it as its owners decide. */
  lemma RotatedUnlocked(s: Suite, u: Universe, k: Ring, newKey: Bytes, opts: RotateOptions, draws: seq<Draw>,
                        at: Attempt) returns (k': Ring)
    requires RotatedAttempt(s, u, k, newKey, opts, draws, at)
    ensures k' == Rotate(s, k, Some(newKey), opts, draws).0 && k'.dataKey == newKey
    ensures |k.header.stanzas| == |k'.header.stanzas| == |k'.owners| <= 2 && k'.header.costs == k.header.costs
    ensures forall j :: 0 <= j < |k.header.stanzas| ==> RotatedFor(k, k', opts, j)
    ensures Unlocked(s, k'.header, at) == Outcome(s, k', at)
    ensures forall kind :: Find(k'.header.stanzas, kind) == Find(k.header.stanzas, kind)
    ensures !TwoFactors(k) ==> PasswordAt(k, 0) && (TwoPasswords(k) <==> |k.header.stanzas| >= 2)
    ensures TwoFactors(k) ==> |k.header.stanzas| == 2 && (AsksFor(k, PW_KEYFILE) <==> !AsksFor(k, PW_YUBIKEY))
    ensures TwoFactors(k) ==> exists i :: 0 <= i < 2 && PasswordAt(k, i) && !PasswordAt(k, 1 - i)
  {
    k' := Rotated(s, k, newKey, opts, draws);
    hide Inv, Ideal, Covered, Rotate, Unlocked, InPlay, Outcome, RotatedFor;
    RotatedKinds(s, k, k', opts);
    hide TwoPasswords, AsksFor, TwoFactors, PasswordAt, Find;
    UnlockedExactly(s, u, k', at);
  }

  /**
   After rotating a vault without a second factor, a password opens it exactly when it is the one given, or the
   recovery code given, if there was a second password stanza; whatever else is offered is ignored.
   */
  lemma PlainRotationOpensExactly(s: Suite, u: Universe, k: Ring, newKey: Bytes, opts: RotateOptions, draws: seq<Draw>,
                                  at: Attempt) returns (k': Ring)
    requires RotatedAttempt(s, u, k, newKey, opts, draws, at) && !TwoFactors(k)
    ensures k' == Rotate(s, k, Some(newKey), opts, draws).0
    ensures TwoPasswords(k) ==> opts.recoveryCode.Some?
    ensures Unlocked(s, k'.header, at) ==
      if s.nfc(at.pw) == s.nfc(opts.password)
         || (TwoPasswords(k) && s.nfc(at.pw) == s.nfc(opts.recoveryCode.value))
      then Ok(newKey) else Err(HeaderAuth)
  {
    k' := RotatedUnlocked(s, u, k, newKey, opts, draws, at);
    hide RotatedAttempt, Rotate, Unlocked, Outcome, AsksFor;
    PlainPresented(k, k', at);
    PlainOwners(k, k', opts);
    hide RotatedFor, Presented, TwoPasswords, TwoFactors, PasswordAt, Find;
    PlainOutcome(s, k', at, opts.password, if |k'.owners| == 2 then opts.recoveryCode.value else opts.password);
  }

  lemma PlainOutcome(s: Suite, k: Ring, at: Attempt, pw: Bytes, code: Bytes)
    requires Presented(k.header, at) == Ok(Password(at.pw)) && 1 <= |k.owners| <= 2
    requires k.owners[0] == Owner(Password(pw), k.header.costs)
    requires k.owners[|k.owners| - 1].secret == Password(if |k.owners| == 2 then code else pw)
    requires k.owners[|k.owners| - 1].costs == k.header.costs
    ensures Outcome(s, k, at) ==
      if s.nfc(at.pw) == s.nfc(pw) || (|k.owners| == 2 && s.nfc(at.pw) == s.nfc(code)) then Ok(k.dataKey)
      else Err(HeaderAuth)
  {
    hide Presented;
    OutcomeOf(s, k, at, Password(at.pw), 0);
    OutcomeOf(s, k, at, Password(at.pw), |k.owners| - 1);
  }

  lemma PlainPresented(k: Ring, k': Ring, at: Attempt)
    requires !TwoFactors(k) && forall kind :: Find(k'.header.stanzas, kind) == Find(k.header.stanzas, kind)
    ensures Presented(k'.header, at) == Ok(Password(at.pw))
  {
  }

  lemma PlainOwners(k: Ring, k': Ring, opts: RotateOptions)
    requires |k.header.stanzas| == |k'.header.stanzas| == |k'.owners| <= 2 && !TwoFactors(k) && PasswordAt(k, 0)
    requires forall j :: 0 <= j < |k.header.stanzas| ==> RotatedFor(k, k', opts, j)
    ensures k'.owners[0] == Owner(Password(opts.password), k.header.costs)
    ensures |k'.owners| == 2 ==>
      opts.recoveryCode.Some? && k'.owners[1] == Owner(Password(opts.recoveryCode.value), k.header.costs)
  {
    assert RotatedFor(k, k', opts, 0);
    if |k'.owners| == 2 {
      assert RotatedFor(k, k', opts, 1);
      assert k.header.stanzas[1].kind == PASSWORD;
    }
  }

  /** In a vault with two factors: the composite stanza's owner and the code's. */
  lemma PairOwners(k: Ring, k': Ring, opts: RotateOptions) returns (i: nat)
    requires |k.header.stanzas| == |k'.header.stanzas| == |k'.owners| == 2 && TwoFactors(k)
    requires forall j :: 0 <= j < |k.header.stanzas| ==> RotatedFor(k, k', opts, j)
    requires exists i :: 0 <= i < 2 && PasswordAt(k, i) && !PasswordAt(k, 1 - i)
    ensures i < 2 && opts.recoveryCode.Some?
    ensures k'.owners[i] == Owner(Password(opts.recoveryCode.value), k.header.costs)
    ensures k'.owners[1 - i].costs == k.header.costs && k'.owners[1 - i].secret.Kind() == k.header.stanzas[1 - i].kind
    ensures k.header.stanzas[1 - i].kind == PW_KEYFILE ==>
      opts.keyfile.Some? && k'.owners[1 - i].secret == PasswordAndKeyfile(opts.password, opts.keyfile.value)
    ensures k.header.stanzas[1 - i].kind == PW_YUBIKEY ==>
      && opts.respond.Some? && YubiKeyChallenge(k'.header.stanzas[1 - i]).Ok?
      && var respond := opts.respond.value; var answer := respond(YubiKeyChallenge(k'.header.stanzas[1 - i]).value);
      && answer.Ok? && k'.owners[1 - i].secret == PasswordAndYubiKey(opts.password, answer.value)
    ensures k.header.stanzas[i].kind == PASSWORD && k.header.stanzas[1 - i].kind in {PW_KEYFILE, PW_YUBIKEY}
  {
    var at :| 0 <= at < 2 && PasswordAt(k, at) && !PasswordAt(k, 1 - at);
    i := at;
    assert RotatedFor(k, k', opts, i) && RotatedFor(k, k', opts, 1 - i);
    hide YubiKeyChallenge;
  }

  lemma PairOutcomeOf(s: Suite, k: Ring, at: Attempt, i: nat, code: Bytes, secret: Secret)
    requires |k.owners| == 2 && i < 2 && k.owners[i] == Owner(Password(code), k.header.costs)
    requires Presented(k.header, at) == Ok(secret) && !k.owners[1 - i].secret.Password?
    ensures Outcome(s, k, at) ==
      if (secret.Password? && s.nfc(secret.pw) == s.nfc(code)) || Matches(s, k.owners[1 - i], secret, k.header.costs)
      then Ok(k.dataKey) else Err(HeaderAuth)
  {
    hide Presented;
    OutcomeOf(s, k, at, secret, i);
    OutcomeOf(s, k, at, secret, 1 - i);
  }

  /** After rotating a vault with a keyfile: password and keyfile given open it together, and the code alone. */
  lemma KeyfileRotationOpensExactly(s: Suite, u: Universe, k: Ring, newKey: Bytes, opts: RotateOptions,
      draws: seq<Draw>,
                                    at: Attempt) returns (k': Ring)
    requires RotatedAttempt(s, u, k, newKey, opts, draws, at) && AsksFor(k, PW_KEYFILE)
    ensures k' == Rotate(s, k, Some(newKey), opts, draws).0 && opts.keyfile.Some? && opts.recoveryCode.Some?
    ensures Unlocked(s, k'.header, at) ==
      if (match at.keyfile
          case Some(file) => s.nfc(at.pw) == s.nfc(opts.password) && file == opts.keyfile.value
          case None => s.nfc(at.pw) == s.nfc(opts.recoveryCode.value))
      then Ok(newKey) else Err(HeaderAuth)
  {
    k' := RotatedUnlocked(s, u, k, newKey, opts, draws, at);
    hide RotatedAttempt, Rotate, Unlocked, Outcome, RotatedFor, YubiKeyChallenge;
    assert TwoFactors(k);
    var i := PairOwners(k, k', opts);
    PairPresented(k, k', at, i);
    var secret := if at.keyfile.Some? then PasswordAndKeyfile(at.pw, at.keyfile.value) else Password(at.pw);
    hide TwoPasswords, TwoFactors, PasswordAt, Find, Presented, AsksFor;
    PairOutcomeOf(s, k', at, i, opts.recoveryCode.value, secret);
  }

  /** What an attempt comes down to in a vault of one composite and one password stanza. */
  lemma PairPresented(k: Ring, k': Ring, at: Attempt, i: nat)
    requires |k.header.stanzas| == |k'.header.stanzas| == 2 && i < 2 && k.header.stanzas[i].kind == PASSWORD
    requires forall kind :: Find(k'.header.stanzas, kind) == Find(k.header.stanzas, kind)
    requires k.header.stanzas[1 - i].kind in {PW_KEYFILE, PW_YUBIKEY}
    ensures k.header.stanzas[1 - i].kind == PW_KEYFILE <==> AsksFor(k, PW_KEYFILE)
    ensures k.header.stanzas[1 - i].kind == PW_YUBIKEY <==> AsksFor(k, PW_YUBIKEY)
    ensures AsksFor(k, PW_KEYFILE) ==>
      Presented(k'.header, at)
      == Ok(if at.keyfile.Some? then PasswordAndKeyfile(at.pw, at.keyfile.value) else Password(at.pw))
    ensures AsksFor(k, PW_YUBIKEY) && at.device.None? ==> Presented(k'.header, at) == Ok(Password(at.pw))
    ensures AsksFor(k, PW_YUBIKEY) && at.device.Some? && YubiKeyChallenge(k'.header.stanzas[1 - i]).Ok? ==>
      var device := at.device.value;
      Presented(k'.header, at) == match device(YubiKeyChallenge(k'.header.stanzas[1 - i]).value)
        case Err(e) => Err(e)
        case Ok(answer) => Ok(PasswordAndYubiKey(at.pw, answer))
  {
    var a := k.header.stanzas;
    assert a[1 - i].kind == PW_KEYFILE ==> Find(a, PW_YUBIKEY).None? && Find(a, PW_KEYFILE) == Some(1 - i);
    assert a[1 - i].kind == PW_YUBIKEY ==> Find(a, PW_KEYFILE).None? && Find(a, PW_YUBIKEY) == Some(1 - i);
    hide Find, YubiKeyChallenge;
  }

  /**
   After rotating a vault with a YubiKey: the password given opens it together with a device that answers the new
   challenge as the one given did, and the code given opens it alone.
   */
  lemma YubiKeyRotationOpensExactly(s: Suite, u: Universe, k: Ring, newKey: Bytes, opts: RotateOptions,
      draws: seq<Draw>,
                                    at: Attempt) returns (k': Ring, challenge: Bytes)
    requires RotatedAttempt(s, u, k, newKey, opts, draws, at) && AsksFor(k, PW_YUBIKEY)
    ensures k' == Rotate(s, k, Some(newKey), opts, draws).0 && opts.respond.Some? && opts.recoveryCode.Some?
    ensures exists st <- k'.header.stanzas :: YubiKeyChallenge(st) == Ok(challenge)
    ensures var respond := opts.respond.value;
      && respond(challenge).Ok?
      && Unlocked(s, k'.header, at) ==
           match at.device
           case Some(device) =>
             (match device(challenge)
              case Err(e) => Err(e)
              case Ok(answer) =>
                if s.nfc(at.pw) == s.nfc(opts.password) && Ok(answer) == respond(challenge) then Ok(newKey)
                else Err(HeaderAuth))
           case None => if s.nfc(at.pw) == s.nfc(opts.recoveryCode.value) then Ok(newKey) else Err(HeaderAuth)
  {
    k' := RotatedUnlocked(s, u, k, newKey, opts, draws, at);
    hide RotatedAttempt, Rotate, Unlocked, RotatedFor, YubiKeyChallenge;
    assert TwoFactors(k);
    var i := PairOwners(k, k', opts);
    challenge := YubiKeyChallenge(k'.header.stanzas[1 - i]).value;
    assert k'.header.stanzas[1 - i] in k'.header.stanzas;
    PairPresented(k, k', at, i);
    hide TwoPasswords, TwoFactors, PasswordAt, Find, Presented, AsksFor;
    if Presented(k'.header, at).Ok? {
      hide Outcome;
      PairOutcomeOf(s, k', at, i, opts.recoveryCode.value, Presented(k'.header, at).value);
    }
  }
}
