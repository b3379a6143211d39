/**
 What changing the key-derivation costs does (change_kdf in vault.rs and sealed.rs): which secrets open the
 vault afterwards, and what that makes of recovery codes and second factors.
 */
module CostChange {
  import opened Bytes
  import opened Primitives
  import opened Headers
  import opened Envelope
  import opened Keyring
  import opened Unlock

  // ---------------------------------------------------------------- which attempts open a vault

  /** What one unlock attempt presents. */
  datatype Attempt = Attempt(pw: Bytes, device: Option<Responder>, keyfile: Option<Bytes>)

  function Unlocked(s: Suite, h: Header, at: Attempt): Result<Bytes> {
    UnwrapDataKey(s, h, at.pw, at.device, at.keyfile)
  }

  /** The secret an attempt comes down to: that of the composite stanza if its factor is offered, else the password. */
  function Presented(h: Header, at: Attempt): Result<Secret> {
    if at.device.Some? && Has(h.stanzas, PW_YUBIKEY) then
      var respond := at.device.value;
      var challenge :- YubiKeyChallenge(h.stanzas[Find(h.stanzas, PW_YUBIKEY).value]);
      var response :- respond(challenge);
      Ok(PasswordAndYubiKey(at.pw, response))
    else if at.keyfile.Some? && Has(h.stanzas, PW_KEYFILE) then Ok(PasswordAndKeyfile(at.pw, at.keyfile.value))
    else Ok(Password(at.pw))
  }

  /** Some stanza, other than number `except`, was wrapped under this secret and these costs. */
  ghost predicate Wrapped(s: Suite, owners: seq<Owner>, except: int, secret: Secret, costs: Costs) {
    exists j {:trigger owners[j]} :: 0 <= j < |owners| && j != except && Matches(s, owners[j], secret, costs)
  }

  /** What an attempt comes to, in terms of what the stanzas were wrapped under. */
  ghost function Outcome(s: Suite, k: Ring, at: Attempt): Result<Bytes> {
    match Presented(k.header, at)
    case Err(e) => Err(e)
    case Ok(secret) => if Wrapped(s, k.owners, -1, secret, k.header.costs) then Ok(k.dataKey) else Err(HeaderAuth)
  }

  /** The attempt is among those the ideal laws speak of. */
  ghost predicate InPlay(s: Suite, u: Universe, k: Ring, at: Attempt) {
    Presented(k.header, at).Ok? ==> Among(s, u, Presented(k.header, at).value, k.Params())
  }

  /** The only stanza of its kind. */
  lemma OnlyComposite(s: Suite, k: Ring, kind: byte, j: nat)
    requires Sized(s) && Inv(s, k) && (kind == PW_YUBIKEY || kind == PW_KEYFILE)
    requires j < |k.header.stanzas| && k.header.stanzas[j].kind == kind
    ensures Find(k.header.stanzas, kind) == Some(j)
  {
    hide Wraps, AllWrap, Encodable;
    OnlyOne(k.header.stanzas, kind, j);
  }

  lemma CompositeOutcome(s: Suite, u: Universe, k: Ring, secret: Secret, j: nat)
    requires Sized(s) && Ideal(s, u) && Inv(s, k) && Covered(s, u, k) && Among(s, u, secret, k.Params())
    requires secret.PasswordAndYubiKey? || secret.PasswordAndKeyfile?
    requires Find(k.header.stanzas, secret.Kind()) == Some(j)
    ensures j < |k.header.stanzas| && Envelope.Unwrap(s, k.header.stanzas[j], secret, k.Params()) ==
            if Wrapped(s, k.owners, -1, secret, k.header.costs) then Ok(k.dataKey) else Err(HeaderAuth)
  {
    var st, o := k.header.stanzas[j], k.owners[j];
    CostsUsable(s, u, k, secret.pw);
    assert Wraps(s, st, o, k.header.salt, k.header.vaultId, k.dataKey);
    UnwrapExactly(s, u, st, o, secret, k.Params(), k.dataKey);
    forall i | 0 <= i < |k.owners| && Matches(s, k.owners[i], secret, k.header.costs) ensures i == j {
      assert Wraps(s, k.header.stanzas[i], k.owners[i], k.header.salt, k.header.vaultId, k.dataKey);
      OnlyComposite(s, k, secret.Kind(), i);
    }
  }

  /**
   Every attempt on every reachable vault, whatever it offers: it opens exactly when some stanza was wrapped,
   under the header's costs, under what it presents.
   */
  lemma UnlockedExactly(s: Suite, u: Universe, k: Ring, at: Attempt)
    requires Sized(s) && Ideal(s, u) && Inv(s, k) && Covered(s, u, k) && InPlay(s, u, k, at)
    ensures Unlocked(s, k.header, at) == Outcome(s, k, at)
  {
    var presented := Presented(k.header, at);
    if presented.Ok? {
      var secret := presented.value;
      if secret.Password? {
        PasswordPathExactly(s, u, k, at.pw);
      } else {
        CompositeOutcome(s, u, k, secret, Find(k.header.stanzas, secret.Kind()).value);
      }
    }
  }

  // ---------------------------------------------------------------- which attempts open it after a cost change

  /** The first password stanza now belongs to `pw`, and attempts come down to the same secrets as before. */
  lemma Changed(s: Suite, k: Ring, pw: Bytes, costs: Costs, nonce: Option<Bytes>) returns (k': Ring, i: nat)
    requires Sized(s) && Inv(s, k) && Drawn(nonce, WRAP_NONCE_LEN) && ChangeKdf(s, k, pw, costs, nonce).1.Ok?
    ensures k' == ChangeKdf(s, k, pw, costs, nonce).0 && Inv(s, k')
    ensures Find(k.header.stanzas, PASSWORD) == Some(i) && i < |k.owners| == |k.header.stanzas|
    ensures k.owners[i].secret.Password? && k.owners[i].costs == k.header.costs
    ensures k'.owners == k.owners[i := Owner(Password(pw), costs)]
    ensures k'.Params() == k.Params().(costs := costs) && k'.header.costs == costs && k'.dataKey == k.dataKey
    ensures forall at :: Presented(k'.header, at) == Presented(k.header, at)
  {
    ChangeKdfKeeps(s, k, pw, costs, nonce);
    ShapeBounds(s, k);
    k', i := ChangeKdf(s, k, pw, costs, nonce).0, Find(k.header.stanzas, PASSWORD).value;
    var st := WrapPassword(s, k.dataKey, pw, k.Params().(costs := costs), nonce).value;
    assert Wraps(s, k.header.stanzas[i], k.owners[i], k.header.salt, k.header.vaultId, k.dataKey);
    assert k'.header.stanzas == k.header.stanzas[i := st];
    hide Inv, ChangeKdf, WrapPassword, Wraps, Presented, Encodable, AllWrap, Shape;
    forall at: Attempt ensures Presented(k'.header, at) == Presented(k.header, at) {
      SamePresented(k.header, k'.header, i, st, at);
    }
  }

  lemma SamePresented(h: Header, h': Header, i: nat, st: Stanza, at: Attempt)
    requires i < |h.stanzas| && h.stanzas[i].kind == st.kind == PASSWORD && h'.stanzas == h.stanzas[i := st]
    ensures Presented(h', at) == Presented(h, at)
  {
    SameFind(h.stanzas, i, st, PW_YUBIKEY);
    SameFind(h.stanzas, i, st, PW_KEYFILE);
  }

  lemma {:induction false} SameFind(a: seq<Stanza>, i: nat, st: Stanza, kind: byte)
    requires i < |a| && a[i].kind == st.kind == PASSWORD && kind != PASSWORD
    ensures Find(a[i := st], kind) == Find(a, kind)
    ensures Find(a, kind).Some? ==> Find(a, kind).value != i
  {
    if i > 0 {
      assert a[i := st][1..] == a[1..][i - 1 := st];
      SameFind(a[1..], i - 1, st, kind);
    } else {
      assert a[i := st][1..] == a[1..];
    }
  }

  /** The secret opens the vault after a cost change: it is the password given, or some other stanza is its own. */
  ghost predicate OpensAfter(s: Suite, owners: seq<Owner>, i: nat, pw: Bytes, costs: Costs, secret: Secret) {
    (secret.Password? && s.nfc(secret.pw) == s.nfc(pw)) || Wrapped(s, owners, i, secret, costs)
  }

  lemma WrappedAfter(s: Suite, owners: seq<Owner>, i: nat, pw: Bytes, costs: Costs, secret: Secret)
    requires i < |owners| && secret.UsesPassword()
    ensures Wrapped(s, owners[i := Owner(Password(pw), costs)], -1, secret, costs)
      <==> OpensAfter(s, owners, i, pw, costs, secret)
  {
    var after := owners[i := Owner(Password(pw), costs)];
    assert after[i] == Owner(Password(pw), costs);
    assert forall j :: 0 <= j < |owners| && j != i ==> after[j] == owners[j];
  }

  /**
   Every attempt after a cost change: a password opens exactly when it is the one given, or that of another
   password stanza wrapped under the new costs; two factors open exactly when the composite stanza was wrapped
   under the new costs. In particular the password given opens alone, whatever else the vault asked for before.
   */
  lemma CostChangeOpensExactly(s: Suite, u: Universe, k: Ring, pw: Bytes, costs: Costs, nonce: Option<Bytes>,
      at: Attempt)
    returns (k': Ring, i: nat)
    requires Sized(s) && Ideal(s, u) && Inv(s, k) && Drawn(nonce, WRAP_NONCE_LEN)
    requires ChangeKdf(s, k, pw, costs, nonce).1.Ok?
    requires Covered(s, u, ChangeKdf(s, k, pw, costs, nonce).0) && InPlay(s, u, ChangeKdf(s, k, pw, costs, nonce).0, at)
    ensures k' == ChangeKdf(s, k, pw, costs, nonce).0 && Find(k.header.stanzas, PASSWORD) == Some(i)
    ensures Unlocked(s, k'.header, at) ==
      if Presented(k.header, at).Err? then Err(Presented(k.header, at).error)
      else if OpensAfter(s, k.owners, i, pw, costs, Presented(k.header, at).value) then Ok(k.dataKey)
      else Err(HeaderAuth)
    ensures at == Attempt(pw, None, None) ==> Unlocked(s, k'.header, at) == Ok(k.dataKey)
  {
    hide Inv, Ideal, Covered, InPlay, ChangeKdf, UnwrapDataKey;
    k', i := Changed(s, k, pw, costs, nonce);
    UnlockedExactly(s, u, k', at);
    if Presented(k.header, at).Ok? {
      WrappedAfter(s, k.owners, i, pw, costs, Presented(k.header, at).value);
    }
  }

  // ---------------------------------------------------------------- exactly when no secret stops opening

  /** Whatever opened the vault `k` opens `k'`. */
  ghost predicate KeepsOpening(s: Suite, u: Universe, k: Ring, k': Ring) {
    forall at: Attempt {:trigger Unlocked(s, k.header, at)} {:trigger Unlocked(s, k'.header, at)} ::
      InPlay(s, u, k, at) && InPlay(s, u, k', at) && Unlocked(s, k.header, at).Ok? ==> Unlocked(s, k'.header, at).Ok?
  }

  /**
   With the costs unchanged, the password whose stanza is replaced must be the one given, or have another stanza.
   With other costs, there must be no current composite stanza, and the same must hold of every current password.
   */
  ghost predicate SecretsSurvive(s: Suite, k: Ring, i: nat, pw: Bytes, costs: Costs)
    requires i < |k.owners|
  {
    if costs == k.header.costs then OpensAfter(s, k.owners, i, pw, costs, k.owners[i].secret)
    else forall j {:trigger k.owners[j]} ::
      0 <= j < |k.owners| && k.owners[j].secret.UsesPassword() && k.owners[j].costs == k.header.costs ==>
        k.owners[j].secret.Password? && OpensAfter(s, k.owners, i, pw, costs, k.owners[j].secret)
  }

  /** The attempt by which the owner of a password-derived stanza opens it. */
  function OwnAttempt(secret: Secret): Attempt
    requires secret.UsesPassword()
  {
    match secret
    case Password(pw) => Attempt(pw, None, None)
    case PasswordAndYubiKey(pw, response) => Attempt(pw, Some(challenge => Ok(response)), None)
    case PasswordAndKeyfile(pw, file) => Attempt(pw, None, Some(file))
  }

  lemma OwnAttemptPresents(s: Suite, k: Ring, j: nat)
    requires Sized(s) && Inv(s, k) && j < |k.owners| && k.owners[j].secret.UsesPassword()
    ensures Presented(k.header, OwnAttempt(k.owners[j].secret)) == Ok(k.owners[j].secret)
  {
    var secret := k.owners[j].secret;
    assert Wraps(s, k.header.stanzas[j], k.owners[j], k.header.salt, k.header.vaultId, k.dataKey);
    if !secret.Password? {
      OnlyComposite(s, k, secret.Kind(), j);
    }
  }

  lemma PlainPresents(h: Header, pw: Bytes)
    ensures Presented(h, Attempt(pw, None, None)) == Ok(Password(pw))
  {
  }

  lemma OwnMatches(s: Suite, o: Owner)
    ensures Matches(s, o, o.secret, o.costs)
  {
  }

  /** Every owner's own attempt is in play, before the change and after it. */
  ghost predicate OwnersInPlay(s: Suite, u: Universe, k: Ring, costs: Costs) {
    forall j {:trigger k.owners[j]} :: 0 <= j < |k.owners| && k.owners[j].secret.UsesPassword() ==>
      Among(s, u, k.owners[j].secret, k.Params()) && Among(s, u, k.owners[j].secret, k.Params().(costs := costs))
  }

  /** A current composite stanza does not survive other costs. */
  lemma CompositeLost(s: Suite, k: Ring, i: nat, pw: Bytes, costs: Costs, j: nat)
    requires Sized(s) && Inv(s, k) && i < |k.owners| && j < |k.owners| && costs != k.header.costs
    requires k.owners[j].secret.PasswordAndYubiKey? || k.owners[j].secret.PasswordAndKeyfile?
    requires k.owners[j].costs == k.header.costs
    ensures !OpensAfter(s, k.owners, i, pw, costs, k.owners[j].secret)
  {
    assert Wraps(s, k.header.stanzas[j], k.owners[j], k.header.salt, k.header.vaultId, k.dataKey);
    OnlyComposite(s, k, k.owners[j].secret.Kind(), j);
    forall m | 0 <= m < |k.owners| && Matches(s, k.owners[m], k.owners[j].secret, costs) ensures false {
      assert Wraps(s, k.header.stanzas[m], k.owners[m], k.header.salt, k.header.vaultId, k.dataKey);
      OnlyComposite(s, k, k.owners[j].secret.Kind(), m);
    }
  }

  /** What opened before through stanza `j` opens after, if that stanza's own secret does. */
  lemma SameSecretOpens(s: Suite, owners: seq<Owner>, i: nat, pw: Bytes, costs: Costs, o: Owner, was: Costs,
      secret: Secret)
    requires Matches(s, o, secret, was) && o.secret.UsesPassword()
    ensures OpensAfter(s, owners, i, pw, costs, secret) <==> OpensAfter(s, owners, i, pw, costs, o.secret)
  {
    assert forall j :: 0 <= j < |owners| ==>
      (Matches(s, owners[j], secret, costs) <==> Matches(s, owners[j], o.secret, costs));
  }

  /** Whether every current stanza's own secret opens afterwards. */
  lemma SurviveStanzaByStanza(s: Suite, k: Ring, i: nat, pw: Bytes, costs: Costs)
    requires Sized(s) && Inv(s, k) && i < |k.owners| && k.owners[i].secret.Password? && k.owners[i].costs
      == k.header.costs
    ensures SecretsSurvive(s, k, i, pw, costs) <==>
      forall j {:trigger k.owners[j]} ::
        0 <= j < |k.owners| && k.owners[j].secret.UsesPassword() && k.owners[j].costs == k.header.costs ==>
          OpensAfter(s, k.owners, i, pw, costs, k.owners[j].secret)
  {
    hide Inv;
    forall j | 0 <= j < |k.owners| && k.owners[j].secret.UsesPassword() && k.owners[j].costs == k.header.costs && j != i
      ensures costs == k.header.costs ==> OpensAfter(s, k.owners, i, pw, costs, k.owners[j].secret)
      ensures costs != k.header.costs && !k.owners[j].secret.Password? ==>
        !OpensAfter(s, k.owners, i, pw, costs, k.owners[j].secret)
    {
      OwnMatches(s, k.owners[j]);
      if costs != k.header.costs && !k.owners[j].secret.Password? {
        CompositeLost(s, k, i, pw, costs, j);
      }
    }
  }

  /**
   A cost change leaves everything that opened the vault opening it, if and only if the replaced stanza's own
   password is the one given (or has another stanza), and, where the costs really change, there is no current
   composite stanza and the same holds of every current password.
   */
  lemma SecretsSurviveExactly(s: Suite, u: Universe, k: Ring, pw: Bytes, costs: Costs, nonce: Option<Bytes>)
    returns (k': Ring, i: nat)
    requires Sized(s) && Ideal(s, u) && Inv(s, k) && Drawn(nonce, WRAP_NONCE_LEN)
    requires ChangeKdf(s, k, pw, costs, nonce).1.Ok?
    requires Covered(s, u, k) && Covered(s, u, ChangeKdf(s, k, pw, costs, nonce).0) && OwnersInPlay(s, u, k, costs)
    ensures k' == ChangeKdf(s, k, pw, costs, nonce).0 && Find(k.header.stanzas, PASSWORD) == Some(i) && i < |k.owners|
    ensures KeepsOpening(s, u, k, k') <==> SecretsSurvive(s, k, i, pw, costs)
  {
    hide Inv, Ideal, Covered, ChangeKdf, UnwrapDataKey, SecretsSurvive, OpensAfter, Presented, OwnAttempt, Among,
      Unlocked;
    k', i := Changed(s, k, pw, costs, nonce);
    SurviveStanzaByStanza(s, k, i, pw, costs);
    if SecretsSurvive(s, k, i, pw, costs) {
      forall at: Attempt | InPlay(s, u, k, at) && InPlay(s, u, k', at) && Unlocked(s, k.header, at).Ok?
        ensures Unlocked(s, k'.header, at).Ok?
      {
        UnlockedExactly(s, u, k, at);
        var secret := Presented(k.header, at).value;
        PresentedUsesPassword(k.header, at);
        var j :| 0 <= j < |k.owners| && Matches(s, k.owners[j], secret, k.header.costs);
        SameSecretOpens(s, k.owners, i, pw, costs, k.owners[j], k.header.costs, secret);
        var _, _ := CostChangeOpensExactly(s, u, k, pw, costs, nonce, at);
      }
    } else {
      var j :| 0 <= j < |k.owners| && k.owners[j].secret.UsesPassword() && k.owners[j].costs == k.header.costs
               && !OpensAfter(s, k.owners, i, pw, costs, k.owners[j].secret);
      var at := OwnAttempt(k.owners[j].secret);
      OwnAttemptPresents(s, k, j);
      OwnMatches(s, k.owners[j]);
      UnlockedExactly(s, u, k, at);
      var _, _ := CostChangeOpensExactly(s, u, k, pw, costs, nonce, at);
      assert Unlocked(s, k.header, at).Ok? && !Unlocked(s, k'.header, at).Ok?;
    }
  }

  lemma PresentedUsesPassword(h: Header, at: Attempt)
    ensures Presented(h, at).Ok? ==> Presented(h, at).value.UsesPassword()
  {
  }

  // ---------------------------------------------------------------- what becomes of two factors

  /** The same attempts open both vaults, with the same errors where they do not. */
  ghost predicate SameUnlocking(s: Suite, u: Universe, k: Ring, k': Ring) {
    forall at: Attempt {:trigger Unlocked(s, k.header, at)} {:trigger Unlocked(s, k'.header, at)} ::
      InPlay(s, u, k, at) && InPlay(s, u, k', at) ==> Unlocked(s, k'.header, at) == Unlocked(s, k.header, at)
  }

  lemma PairOutcome(s: Suite, secret: Secret, c: Costs, code: Bytes, d: Costs, presented: Secret, costs: Costs)
    ensures Wrapped(s, [Owner(secret, c), Owner(Password(code), d)], -1, presented, costs) <==>
      Matches(s, Owner(secret, c), presented, costs) || Matches(s, Owner(Password(code), d), presented, costs)
  {
    var owners := [Owner(secret, c), Owner(Password(code), d)];
    assert owners[0] == Owner(secret, c) && owners[1] == Owner(Password(code), d);
  }

  /** What a cost change makes of a vault with two factors: the recovery stanza becomes the given password's. */
  lemma TwoFactorChanged(s: Suite, k: Ring, secret: Secret, code: Bytes, pw: Bytes, costs: Costs, nonce: Option<Bytes>)
    returns (k': Ring)
    requires Sized(s) && TwoFactor(s, k, secret, code) && Drawn(nonce, WRAP_NONCE_LEN)
    requires ChangeKdf(s, k, pw, costs, nonce).1.Ok?
    ensures k' == ChangeKdf(s, k, pw, costs, nonce).0 && Inv(s, k')
    ensures k'.owners == [Owner(secret, k.header.costs), Owner(Password(pw), costs)]
    ensures k'.header.costs == costs && k'.dataKey == k.dataKey && k'.Params() == k.Params().(costs := costs)
    ensures forall at :: Presented(k'.header, at) == Presented(k.header, at)
  {
    hide Inv, Presented;
    var i;
    k', i := Changed(s, k, pw, costs, nonce);
    TwoFactorKinds(s, k, secret, code);
  }

  /**
   A cost change leaves a vault with two factors as it was enrolled if and only if the costs stay the same and
   the password given is the recovery code. Whatever they are, the password given then opens the vault alone.
   The recovery code still opens it exactly when it is that password; both factors exactly under the same costs.
   */
  lemma CostChangeTwoFactorExactly(s: Suite, u: Universe, k: Ring, secret: Secret, code: Bytes, pw: Bytes, costs: Costs,
                                   nonce: Option<Bytes>) returns (k': Ring)
    requires Sized(s) && Ideal(s, u) && TwoFactor(s, k, secret, code) && Drawn(nonce, WRAP_NONCE_LEN)
    requires ChangeKdf(s, k, pw, costs, nonce).1.Ok?
    requires Covered(s, u, k) && Covered(s, u, ChangeKdf(s, k, pw, costs, nonce).0) && OwnersInPlay(s, u, k, costs)
    requires Among(s, u, Password(pw), k.Params())
    ensures k' == ChangeKdf(s, k, pw, costs, nonce).0
    ensures TwoFactor(s, k', secret, code) <==> costs == k.header.costs && pw == code
    ensures SameUnlocking(s, u, k, k') <==> costs == k.header.costs && s.nfc(pw) == s.nfc(code)
    ensures Unlocked(s, k'.header, Attempt(pw, None, None)) == Ok(k.dataKey)
    ensures Unlocked(s, k'.header, Attempt(code, None, None)) ==
            if s.nfc(code) == s.nfc(pw) then Ok(k.dataKey) else Err(HeaderAuth)
    ensures Unlocked(s, k'.header, OwnAttempt(secret)) == if costs == k.header.costs then Ok(k.dataKey)
      else Err(HeaderAuth)
  {
    hide Ideal, ChangeKdf, UnwrapDataKey, Among, Unlocked, Inv, Presented, OwnAttempt;
    k' := TwoFactorChanged(s, k, secret, code, pw, costs, nonce);
    var both, recovery, given := OwnAttempt(secret), Attempt(code, None, None), Attempt(pw, None, None);
    assert k.owners[0].secret == secret && k.owners[1].secret == Password(code) && k'.owners[1].secret == Password(pw);
    OwnAttemptPresents(s, k, 0);
    PlainPresents(k.header, code);
    PlainPresents(k.header, pw);
    assert k'.Params() == k'.Params().(costs := costs) == k.Params().(costs := costs);
    TwoFactorOutcome(s, u, k, k', secret, code, pw, both);
    TwoFactorOutcome(s, u, k, k', secret, code, pw, recovery);
    TwoFactorOutcome(s, u, k, k', secret, code, pw, given);
    if costs == k.header.costs && s.nfc(pw) == s.nfc(code) {
      forall at: Attempt | InPlay(s, u, k, at) && InPlay(s, u, k', at)
        ensures Unlocked(s, k'.header, at) == Unlocked(s, k.header, at)
      {
        TwoFactorOutcome(s, u, k, k', secret, code, pw, at);
      }
    }
  }

  lemma TwoFactorOutcome(s: Suite, u: Universe, k: Ring, k': Ring, secret: Secret, code: Bytes, pw: Bytes, at: Attempt)
    requires Sized(s) && Ideal(s, u) && TwoFactor(s, k, secret, code) && Inv(s, k')
    requires k'.owners == [Owner(secret, k.header.costs), Owner(Password(pw), k'.header.costs)] && k'.dataKey
      == k.dataKey
    requires Presented(k'.header, at) == Presented(k.header, at)
    requires Covered(s, u, k) && Covered(s, u, k') && InPlay(s, u, k, at) && InPlay(s, u, k', at)
    ensures match Presented(k.header, at)
      case Err(e) => Unlocked(s, k.header, at) == Unlocked(s, k'.header, at) == Err(e)
      case Ok(presented) =>
        var composite, costs := Owner(secret, k.header.costs), k'.header.costs;
        && Unlocked(s, k.header, at) ==
             (if Matches(s, composite, presented, k.header.costs)
                 || (presented.Password? && s.nfc(presented.pw) == s.nfc(code)) then Ok(k.dataKey) else Err(HeaderAuth))
        && Unlocked(s, k'.header, at) ==
             (if Matches(s, composite, presented, costs) || (presented.Password? && s.nfc(presented.pw) == s.nfc(pw))
              then Ok(k.dataKey) else Err(HeaderAuth))
  {
    hide Ideal, Covered, InPlay, Unlocked, Inv, Presented;
    UnlockedExactly(s, u, k, at);
    UnlockedExactly(s, u, k', at);
    if Presented(k.header, at).Ok? {
      var presented := Presented(k.header, at).value;
      PairOutcome(s, secret, k.header.costs, code, k.header.costs, presented, k.header.costs);
      PairOutcome(s, secret, k.header.costs, pw, k'.header.costs, presented, k'.header.costs);
    }
  }

  // ---------------------------------------------------------------- what becomes of the stanzas

  /** Every password-derived stanza was wrapped under the costs the header has. */
  ghost predicate AllCurrent(k: Ring) {
    forall i {:trigger k.owners[i]} :: 0 <= i < |k.owners| && k.owners[i].secret.UsesPassword() ==>
      k.owners[i].costs == k.header.costs
  }

  /** Being current is what it takes for a stanza to open for its own owner. */
  lemma CurrentIsOpenable(s: Suite, u: Universe, k: Ring, i: nat)
    requires Sized(s) && Ideal(s, u) && Inv(s, k) && Covered(s, u, k) && i < |k.owners|
    requires k.owners[i].secret.UsesPassword() && Among(s, u, k.owners[i].secret, k.Params())
    ensures Unwrap(s, k.header.stanzas[i], k.owners[i].secret, k.Params()) ==
            if k.owners[i].costs == k.header.costs then Ok(k.dataKey) else Err(HeaderAuth)
  {
    assert Wraps(s, k.header.stanzas[i], k.owners[i], k.header.salt, k.header.vaultId, k.dataKey);
    CostsUsable(s, u, k, k.owners[i].secret.pw);
    UnwrapExactly(s, u, k.header.stanzas[i], k.owners[i], k.owners[i].secret, k.Params(), k.dataKey);
  }

  /** The number of password-derived stanzas. */
  function PasswordDerived(a: seq<Stanza>): nat { Count(a, PASSWORD) + Composites(a) }

  lemma {:induction false} OnlyOnePasswordDerived(a: seq<Stanza>, i: nat)
    requires KnownKinds(a) && i < |a| && a[i].kind == PASSWORD
    ensures PasswordDerived(a) == 1 <==>
            forall j :: 0 <= j < |a| && j != i ==> a[j].kind == FIDO2 || a[j].kind == TPM
  {
    hide Count, Find;
    var b := a[..i] + a[i + 1..];
    CountConcat(a[..i], a[i + 1..], PASSWORD);
    CountConcat(a[..i], a[i + 1..], PW_YUBIKEY);
    CountConcat(a[..i], a[i + 1..], PW_KEYFILE);
    CountsAround(a, i, PASSWORD);
    CountsAround(a, i, PW_YUBIKEY);
    CountsAround(a, i, PW_KEYFILE);
    CountZero(b, PASSWORD);
    CountZero(b, PW_YUBIKEY);
    CountZero(b, PW_KEYFILE);
    assert forall j :: 0 <= j < i ==> b[j] == a[j];
    assert forall j :: i < j < |a| ==> b[j - 1] == a[j];
    if PasswordDerived(a) == 1 {
      forall j | 0 <= j < |a| && j != i ensures a[j].kind == FIDO2 || a[j].kind == TPM {
        assert a[j] == b[if j < i then j else j - 1];
        assert Known(a[j].kind);
      }
    }
  }

  lemma CountsAround(a: seq<Stanza>, i: nat, kind: byte)
    requires i < |a|
    ensures Count(a, kind) == Count(a[..i], kind) + (if a[i].kind == kind then 1 else 0) + Count(a[i + 1..], kind)
  {
    CountConcat(a[..i] + [a[i]], a[i + 1..], kind);
    CountConcat(a[..i], [a[i]], kind);
    CountOne(a[i], kind);
    assert a == a[..i] + [a[i]] + a[i + 1..];
  }

  /**
   Changing the costs re-wraps one password stanza and rewrites the costs every password-derived stanza
   is opened under. So it leaves them all openable exactly when there is only that one, or when the
   costs stay the same.
   */
  lemma ChangeKdfKeepsAllCurrentExactly(s: Suite, k: Ring, pw: Bytes, costs: Costs, nonce: Option<Bytes>)
    requires Sized(s) && Inv(s, k) && AllCurrent(k) && Drawn(nonce, WRAP_NONCE_LEN)
    requires ChangeKdf(s, k, pw, costs, nonce).1.Ok?
    ensures AllCurrent(ChangeKdf(s, k, pw, costs, nonce).0)
      <==> PasswordDerived(k.header.stanzas) == 1 || costs == k.header.costs
  {
    var a, k' := k.header.stanzas, ChangeKdf(s, k, pw, costs, nonce).0;
    ShapeBounds(s, k);
    var i := Find(a, PASSWORD).value;
    OnlyOnePasswordDerived(a, i);
    forall j | 0 <= j < |k.owners|
      ensures k.owners[j].secret.UsesPassword() <==> a[j].kind != FIDO2 && a[j].kind != TPM {
      assert Wraps(s, a[j], k.owners[j], k.header.salt, k.header.vaultId, k.dataKey);
    }
    assert forall j :: 0 <= j < |k.owners| && j != i ==> k'.owners[j] == k.owners[j];
    if costs != k.header.costs && PasswordDerived(a) != 1 {
      var j :| 0 <= j < |a| && j != i && !(a[j].kind == FIDO2 || a[j].kind == TPM);
      assert k'.owners[j].secret.UsesPassword() && k'.owners[j].costs != costs;
    }
  }

  /** The two steps of the run below, and who owns the stanzas after each. */
  lemma UpgradeRun(s: Suite, k0: Ring, pw: Bytes, code: Bytes, n2: Bytes, n3: Bytes) returns (k1: Ring, k2: Ring)
    requires Sized(s) && Inv(s, k0) && k0.owners == [Owner(Password(pw), k0.header.costs)]
    requires ArgonUniform(s) && PasswordIkm(s, pw, k0.Params().(costs := Costs(19_456, 2, 1))).Ok?
    requires |n2| == |n3| == WRAP_NONCE_LEN
    ensures AddRecovery(s, k0, code, Some(n2)) == (k1, Ok(Unit)) && Inv(s, k1)
    ensures k1.owners == [Owner(Password(pw), k0.header.costs), Owner(Password(code), k0.header.costs)]
    ensures ChangeKdf(s, k1, pw, Costs(19_456, 2, 1), Some(n3)) == (k2, Ok(Unit)) && Inv(s, k2)
    ensures k2.owners == [Owner(Password(pw), Costs(19_456, 2, 1)), Owner(Password(code), k0.header.costs)]
    ensures k1.header.costs == k0.header.costs && k2.header.costs == Costs(19_456, 2, 1)
    ensures k1.Params() == k0.Params() && k2.Params() == k0.Params().(costs := Costs(19_456, 2, 1))
    ensures k1.dataKey == k2.dataKey == k0.dataKey
  {
    assert Wraps(s, k0.header.stanzas[0], k0.owners[0], k0.header.salt, k0.header.vaultId, k0.dataKey);
    CountOne(k0.header.stanzas[0], PASSWORD);
    assert k0.header.stanzas == [k0.header.stanzas[0]];
    k1 := AddRecovery(s, k0, code, Some(n2)).0;
    AddRecoveryKeeps(s, k0, code, Some(n2));
    k2 := ChangeKdf(s, k1, pw, Costs(19_456, 2, 1), Some(n3)).0;
    ChangeKdfKeeps(s, k1, pw, Costs(19_456, 2, 1), Some(n3));
    assert Find(k1.header.stanzas, PASSWORD) == Some(0);
  }

  /** With two password stanzas, a password opens the vault exactly when it is one of the two and current. */
  lemma PairPathExactly(s: Suite, u: Universe, k: Ring, a: Bytes, c: Costs, b: Bytes, d: Costs, pw: Bytes)
    requires Sized(s) && Ideal(s, u) && Inv(s, k) && k.owners == [Owner(Password(a), c), Owner(Password(b), d)]
    requires Among(s, u, Password(a), k.Params().(costs := c)) && Among(s, u, Password(b), k.Params().(costs := d))
    requires Among(s, u, Password(pw), k.Params())
    ensures UnwrapDataKey(s, k.header, pw, None, None) ==
            if (s.nfc(a) == s.nfc(pw) && c == k.header.costs) || (s.nfc(b) == s.nfc(pw) && d == k.header.costs)
            then Ok(k.dataKey) else Err(HeaderAuth)
  {
    PasswordPathExactly(s, u, k, pw);
    assert k.owners[0] == Owner(Password(a), c) && k.owners[1] == Owner(Password(b), d);
  }

  /**
   A run that shows it: a new vault, a recovery stanza, and an upgrade from test costs to the floor.
   The recovery code, good before, no longer opens the vault; the password does.
   */
  lemma RecoveryLostByUpgrade(s: Suite, u: Universe, k0: Ring, pw: Bytes, code: Bytes, n2: Bytes, n3: Bytes)
    returns (k1: Ring, k2: Ring)
    requires Sized(s) && Ideal(s, u)
    requires Inv(s, k0) && k0.owners == [Owner(Password(pw), Costs(64, 1, 1))] && k0.header.costs == Costs(64, 1, 1)
    requires PasswordIkm(s, pw, k0.Params().(costs := Costs(19_456, 2, 1))).Ok?
    requires |n2| == |n3| == WRAP_NONCE_LEN && s.nfc(pw) != s.nfc(code)
    requires forall c | c in {Costs(64, 1, 1), Costs(19_456, 2, 1)} ::
      Among(s, u, Password(pw), k0.Params().(costs := c)) && Among(s, u, Password(code), k0.Params().(costs := c))
    ensures AddRecovery(s, k0, code, Some(n2)) == (k1, Ok(Unit))
    ensures ChangeKdf(s, k1, pw, Costs(19_456, 2, 1), Some(n3)) == (k2, Ok(Unit))
    ensures UnwrapDataKey(s, k1.header, code, None, None) == Ok(k0.dataKey)
    ensures UnwrapDataKey(s, k2.header, code, None, None) == Err(HeaderAuth)
    ensures UnwrapDataKey(s, k2.header, pw, None, None) == Ok(k0.dataKey)
  {
    k1, k2 := UpgradeRun(s, k0, pw, code, n2, n3);
    hide Inv, Ideal, AddRecovery, ChangeKdf, UnwrapDataKey;
    var before, after := k0.header.costs, k2.header.costs;
    PairPathExactly(s, u, k1, pw, before, code, before, code);
    PairPathExactly(s, u, k2, pw, after, code, before, code);
    PairPathExactly(s, u, k2, pw, after, code, before, pw);
  }

  /** The attempts of the run below: the master password, the recovery code, and both factors. */
  ghost predicate SecretsInPlay(s: Suite, u: Universe, p: Params, pw: Bytes, file: Bytes, code: Bytes) {
    && Among(s, u, Password(pw), p) && Among(s, u, Password(code), p) && Among(s, u, PasswordAndKeyfile(pw, file), p)
  }

  /** The vault before the change and after it: what its three secrets come to. */
  ghost predicate Opens(s: Suite, k: Ring, pw: Bytes, file: Bytes, code: Bytes, alone: bool, both: bool,
      recovery: bool) {
    && (Unlocked(s, k.header, Attempt(pw, None, None)) == if alone then Ok(k.dataKey) else Err(HeaderAuth))
    && (Unlocked(s, k.header, Attempt(pw, None, Some(file))) == if both then Ok(k.dataKey) else Err(HeaderAuth))
    && (Unlocked(s, k.header, Attempt(code, None, None)) == if recovery then Ok(k.dataKey) else Err(HeaderAuth))
  }

  lemma OpensEnrolled(s: Suite, u: Universe, k: Ring, pw: Bytes, file: Bytes, code: Bytes)
    requires Sized(s) && Ideal(s, u) && TwoFactor(s, k, PasswordAndKeyfile(pw, file), code) && Covered(s, u, k)
    requires SecretsInPlay(s, u, k.Params(), pw, file, code) && s.nfc(pw) != s.nfc(code)
    ensures Opens(s, k, pw, file, code, false, true, true)
  {
    hide Inv, Ideal, UnwrapDataKey, Among, Covered;
    KeyfileAndSemantics(s, u, k, pw, file, code, pw, file, None);
    PasswordPathExactly(s, u, k, code);
    RecoveryOnly(s, k, PasswordAndKeyfile(pw, file), code, code);
  }

  lemma OpensChanged(s: Suite, u: Universe, k: Ring, pw: Bytes, file: Bytes, code: Bytes, nonce: Bytes, costs: Costs)
    requires Sized(s) && Ideal(s, u) && TwoFactor(s, k, PasswordAndKeyfile(pw, file), code)
    requires SecretsInPlay(s, u, k.Params(), pw, file, code) && s.nfc(pw) != s.nfc(code) && |nonce| == WRAP_NONCE_LEN
    requires SecretsInPlay(s, u, k.Params().(costs := costs), pw, file, code)
    requires ChangeKdf(s, k, pw, costs, Some(nonce)).1.Ok?
    ensures Covered(s, u, k)
    ensures Opens(s, ChangeKdf(s, k, pw, costs, Some(nonce)).0, pw, file, code, true, costs == k.header.costs, false)
  {
    hide Inv, Ideal, ChangeKdf, UnwrapDataKey, Among;
    var secret := PasswordAndKeyfile(pw, file);
    var k' := TwoFactorChanged(s, k, secret, code, pw, costs, Some(nonce));
    assert k.Params() == k.Params().(costs := k.header.costs) && k'.Params() == k'.Params().(costs := costs);
    assert k.owners[0] == Owner(secret, k.header.costs) && k.owners[1] == Owner(Password(code), k.header.costs);
    assert Covered(s, u, k) && Covered(s, u, k') && OwnersInPlay(s, u, k, costs);
    hide Covered, OwnersInPlay, Unlocked;
    var _ := CostChangeTwoFactorExactly(s, u, k, secret, code, pw, costs, Some(nonce));
    assert OwnAttempt(secret) == Attempt(pw, None, Some(file));
  }

  /**
   A run that shows it: a keyfile is enrolled, and the costs are changed with the master password, as the
   `upgrade-kdf` command does. Before, the password alone was refused; after, it opens the vault. The recovery
   code opens it no longer, and password and keyfile together only if the costs were the same.
   */
  lemma SecondFactorLost(s: Suite, u: Universe, k0: Ring, pw: Bytes, file: Bytes, code: Bytes, n1: Bytes, n2: Bytes,
                         n3: Bytes, costs: Costs) returns (k1: Ring, k2: Ring)
    requires Sized(s) && Ideal(s, u) && Inv(s, k0) && |n1| == |n2| == |n3| == WRAP_NONCE_LEN
    requires k0.header.costs == Costs(19_456, 2, 1) && costs in {Costs(19_456, 2, 1), Costs(65_536, 3, 4)}
    requires PasswordIkm(s, pw, k0.Params().(costs := costs)).Ok? && s.nfc(pw) != s.nfc(code)
    requires SecretsInPlay(s, u, k0.Params(), pw, file, code)
    requires SecretsInPlay(s, u, k0.Params().(costs := costs), pw, file, code)
    ensures EnrollKeyfile(s, k0, pw, file, code, Some(n1), Some(n2)) == (k1, Ok(Unit)) && Inv(s, k1)
    ensures ChangeKdf(s, k1, pw, costs, Some(n3)) == (k2, Ok(Unit))
    ensures Opens(s, k1, pw, file, code, false, true, true)
    ensures Opens(s, k2, pw, file, code, true, costs == Costs(19_456, 2, 1), false)
  {
    k1 := Enrolled(s, u, k0, pw, file, code, n1, n2);
    k2 := ChangeKdf(s, k1, pw, costs, Some(n3)).0;
    assert ChangeKdf(s, k1, pw, costs, Some(n3)).1.Ok?;
    hide Inv, Ideal, ChangeKdf, EnrollKeyfile, UnwrapDataKey, Among, Opens, SecretsInPlay;
    OpensChanged(s, u, k1, pw, file, code, n3, costs);
    OpensEnrolled(s, u, k1, pw, file, code);
  }

  lemma Enrolled(s: Suite, u: Universe, k0: Ring, pw: Bytes, file: Bytes, code: Bytes, n1: Bytes, n2: Bytes)
    returns (k1: Ring)
    requires Sized(s) && Ideal(s, u) && Inv(s, k0) && |n1| == |n2| == WRAP_NONCE_LEN
    ensures EnrollKeyfile(s, k0, pw, file, code, Some(n1), Some(n2)) == (k1, Ok(Unit))
    ensures TwoFactor(s, k1, PasswordAndKeyfile(pw, file), code)
    ensures k1.Params() == k0.Params() && k1.header.costs == k0.header.costs
  {
    CostsUsable(s, u, k0, pw);
    CostsUsable(s, u, k0, code);
    k1 := EnrollKeyfile(s, k0, pw, file, code, Some(n1), Some(n2)).0;
    EnrollKeyfileEstablishes(s, k0, pw, file, code, Some(n1), Some(n2));
  }
}
