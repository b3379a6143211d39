/**
 The stanza envelope as a state machine: one data key, wrapped by a list of stanzas that enrolling,
 removing, refreshing, changing costs and rotating rewrite (vault.rs, sealed.rs). The steps are
 functions on values here; the classes of Vault.dfy and Sealed.dfy perform them in place.
 */
module Keyring {
  import opened Bytes
  import opened Primitives
  import opened Headers
  import opened StanzaTails
  import opened Envelope

  /** A header, the data key its stanzas wrap, and, for the proofs, who can open each stanza. */
  datatype Ring = Ring(header: Header, dataKey: Bytes, owners: seq<Owner>) {
    function Params(): Params { ParamsOf(header) }

    function With(stanzas: seq<Stanza>, owners': seq<Owner>): Ring {
      Ring(header.(stanzas := stanzas), dataKey, owners')
    }
  }

  type Responder = Bytes -> Result<Bytes>

  // ---------------------------------------------------------------- queries

  function Count(stanzas: seq<Stanza>, kind: byte): nat {
    if stanzas == [] then 0
    else (if stanzas[0].kind == kind then 1 else 0) + Count(stanzas[1..], kind)
  }

  /** The first stanza of a kind. */
  function Find(stanzas: seq<Stanza>, kind: byte): (r: Option<nat>)
    ensures r.Some? ==> r.value < |stanzas| && stanzas[r.value].kind == kind
    ensures r.Some? ==> forall i :: 0 <= i < r.value ==> stanzas[i].kind != kind
    ensures r.None? ==> forall i :: 0 <= i < |stanzas| ==> stanzas[i].kind != kind
  {
    if stanzas == [] then None
    else if stanzas[0].kind == kind then Some(0)
    else
      match Find(stanzas[1..], kind)
      case None => None
      case Some(i) => Some(i + 1)
  }

  predicate Has(stanzas: seq<Stanza>, kind: byte) { Find(stanzas, kind).Some? }

  predicate Is2fa(stanzas: seq<Stanza>) { Has(stanzas, PW_YUBIKEY) || Has(stanzas, PW_KEYFILE) }

  predicate HasRecovery(stanzas: seq<Stanza>) {
    Count(stanzas, PASSWORD) > 1 || (Is2fa(stanzas) && Count(stanzas, PASSWORD) == 1)
  }

  // ---------------------------------------------------------------- steps

  function AddRecovery(s: Suite, k: Ring, code: Bytes, nonce: Option<Bytes>): (Ring, Result<Unit>) {
    if Is2fa(k.header.stanzas) then (k, Err(Hardware))
    else if Count(k.header.stanzas, PASSWORD) >= 2 then (k, Err(Hardware))
    else
      match WrapPassword(s, k.dataKey, code, k.Params(), nonce)
      case Err(e) => (k, Err(e))
      case Ok(st) => (k.With(k.header.stanzas + [st], k.owners + [Owner(Password(code), k.header.costs)]), Ok(Unit))
  }

  /** Replace everything by a composite stanza and a recovery stanza. */
  function Enroll(s: Suite, k: Ring, composite: Result<Stanza>, secret: Secret, code: Bytes, nonce: Option<Bytes>)
    : (Ring, Result<Unit>)
  {
    match composite
    case Err(e) => (k, Err(e))
    case Ok(first) =>
      match WrapPassword(s, k.dataKey, code, k.Params(), nonce)
      case Err(e) => (k, Err(e))
      case Ok(recovery) =>
        (k.With([first, recovery], [Owner(secret, k.header.costs), Owner(Password(code), k.header.costs)]), Ok(Unit))
  }

  function EnrollYubiKey(s: Suite, k: Ring, pw: Bytes, response: Bytes, challenge: Bytes, code: Bytes,
                         nonce1: Option<Bytes>, nonce2: Option<Bytes>): (Ring, Result<Unit>) {
    Enroll(s, k, WrapYubiKey(s, k.dataKey, pw, response, challenge, k.Params(), nonce1),
           PasswordAndYubiKey(pw, response), code, nonce2)
  }

  function EnrollKeyfile(s: Suite, k: Ring, pw: Bytes, keyfile: Bytes, code: Bytes,
                         nonce1: Option<Bytes>, nonce2: Option<Bytes>): (Ring, Result<Unit>) {
    Enroll(s, k, WrapKeyfile(s, k.dataKey, pw, keyfile, k.Params(), nonce1), PasswordAndKeyfile(pw, keyfile), code,
        nonce2)
  }

  function AddFido2(s: Suite, k: Ring, prfOutput: Bytes, extra: Fido2Extra, nonce: Option<Bytes>): (Ring,
                    Result<Unit>) {
    if |k.header.stanzas| >= MAX_STANZAS then (k, Err(Hardware))
    else if Has(k.header.stanzas, FIDO2) then (k, Err(Hardware))
    else
      match WrapFido2(s, k.dataKey, prfOutput, k.header.vaultId, extra, nonce)
      case Err(e) => (k, Err(e))
      case Ok(st) => (k.With(k.header.stanzas + [st], k.owners + [Owner(Prf(prfOutput), k.header.costs)]), Ok(Unit))
  }

  function SetTpm(s: Suite, k: Ring, tpmIkm: Bytes, extra: TpmExtra, nonce: Option<Bytes>): (Ring, Result<Unit>)
    requires |k.owners| == |k.header.stanzas|
  {
    match WrapTpm(s, k.dataKey, tpmIkm, k.header.vaultId, extra, nonce)
    case Err(e) => (k, Err(e))
    case Ok(st) =>
      var o := Owner(TpmSecret(tpmIkm), k.header.costs);
      match Find(k.header.stanzas, TPM)
      case Some(i) => (k.With(k.header.stanzas[i := st], k.owners[i := o]), Ok(Unit))
      case None =>
        if |k.header.stanzas| >= MAX_STANZAS then (k, Err(Hardware))
        else (k.With(k.header.stanzas + [st], k.owners + [o]), Ok(Unit))
  }

  /** Keep the stanzas of other kinds, each with its owner. */
  function Without(stanzas: seq<Stanza>, owners: seq<Owner>, kind: byte): (r: (seq<Stanza>, seq<Owner>))
    requires |stanzas| == |owners|
    ensures |r.0| == |r.1| <= |stanzas|
  {
    if stanzas == [] then ([], [])
    else
      var rest := Without(stanzas[1..], owners[1..], kind);
      if stanzas[0].kind == kind then rest else ([stanzas[0]] + rest.0, [owners[0]] + rest.1)
  }

  function RemoveType(k: Ring, kind: byte): (Ring, Result<Unit>)
    requires |k.owners| == |k.header.stanzas|
  {
    if kind == PASSWORD then (k, Err(Hardware))
    else
      var (stanzas, owners) := Without(k.header.stanzas, k.owners, kind);
      if |stanzas| == |k.header.stanzas| then (k, Err(Hardware)) else (k.With(stanzas, owners), Ok(Unit))
  }

  /** A save that refreshes the YubiKey challenge keeps the composite and the first password stanza. */
  function RefreshYubiKey(s: Suite, k: Ring, pw: Bytes, response: Bytes, challenge: Bytes, nonce: Option<Bytes>)
    : (Ring, Result<Unit>)
    requires |k.owners| == |k.header.stanzas|
  {
    match Find(k.header.stanzas, PASSWORD)
    case None => (k, Err(HeaderAuth))
    case Some(i) =>
      match WrapYubiKey(s, k.dataKey, pw, response, challenge, k.Params(), nonce)
      case Err(e) => (k, Err(e))
      case Ok(first) =>
        (k.With([first, k.header.stanzas[i]], [Owner(PasswordAndYubiKey(pw, response), k.header.costs), k.owners[i]]),
            Ok(Unit))
  }

  /** Re-wrap the first password stanza under new costs and store them in the header. */
  function ChangeKdf(s: Suite, k: Ring, pw: Bytes, costs: Costs, nonce: Option<Bytes>): (Ring, Result<Unit>)
    requires |k.owners| == |k.header.stanzas|
  {
    match RejectKdfBelowFloor(costs)
    case Err(e) => (k, Err(e))
    case Ok(_) =>
      match WrapPassword(s, k.dataKey, pw, k.Params().(costs := costs), nonce)
      case Err(e) => (k, Err(e))
      case Ok(st) =>
        var changed := match Find(k.header.stanzas, PASSWORD)
          case None => k
          case Some(i) => k.With(k.header.stanzas[i := st], k.owners[i := Owner(Password(pw), costs)]);
        (changed.(header := changed.header.(costs := costs)), Ok(Unit))
  }

  datatype RotateOptions = RotateOptions(
    password: Bytes,
    recoveryCode: Option<Bytes>,
    keyfile: Option<Bytes>,
    respond: Option<Responder>)

  /** The random values drawn while one stanza is re-wrapped. */
  datatype Draw = Draw(challenge: Option<Bytes>, nonce: Option<Bytes>)

  function RewrapOne(s: Suite, k: Ring, newKey: Bytes, opts: RotateOptions, draw: Draw, kind: byte, pwSeen: nat)
    : Result<(Stanza, Owner)>
  {
    var p := k.Params();
    if kind == PASSWORD then
      if Is2fa(k.header.stanzas) || pwSeen > 0 then
        if opts.recoveryCode.None? then Err(Hardware)
        else
          var code := opts.recoveryCode.value;
          var st :- WrapPassword(s, newKey, code, p, draw.nonce);
          Ok((st, Owner(Password(code), p.costs)))
      else
        var st :- WrapPassword(s, newKey, opts.password, p, draw.nonce);
        Ok((st, Owner(Password(opts.password), p.costs)))
    else if kind == PW_YUBIKEY then
      if opts.respond.None? then Err(YubiKeyStrictSave)
      else if draw.challenge.None? then Err(Crypto)
      else
        var respond := opts.respond.value;
        var answer :- respond(draw.challenge.value);
        var st :- WrapYubiKey(s, newKey, opts.password, answer, draw.challenge.value, p, draw.nonce);
        Ok((st, Owner(PasswordAndYubiKey(opts.password, answer), p.costs)))
    else if kind == PW_KEYFILE then
      if opts.keyfile.None? then Err(Hardware)
      else
        var st :- WrapKeyfile(s, newKey, opts.password, opts.keyfile.value, p, draw.nonce);
        Ok((st, Owner(PasswordAndKeyfile(opts.password, opts.keyfile.value), p.costs)))
    else Err(Hardware)
  }

  function DrawAt(draws: seq<Draw>, i: nat): Draw { if i < |draws| then draws[i] else Draw(None, None) }

  /** Re-wrap stanza `i` and those after it, `pwSeen` password stanzas lying before. */
  function RewrapFrom(s: Suite, k: Ring, newKey: Bytes, opts: RotateOptions, draws: seq<Draw>, i: nat, pwSeen: nat)
    : Result<(seq<Stanza>, seq<Owner>)>
    requires i <= |k.header.stanzas|
    decreases |k.header.stanzas| - i
  {
    if i == |k.header.stanzas| then Ok(([], []))
    else
      var kind := k.header.stanzas[i].kind;
      var (st, o) :- RewrapOne(s, k, newKey, opts, DrawAt(draws, i), kind, pwSeen);
      var (stanzas, owners) :- RewrapFrom(s, k, newKey, opts, draws, i + 1, if kind == PASSWORD then pwSeen + 1
          else pwSeen);
      Ok(([st] + stanzas, [o] + owners))
  }

  /** Replace the data key and re-wrap every stanza; nothing changes unless all of it succeeds. */
  function Rotate(s: Suite, k: Ring, newKey: Option<Bytes>, opts: RotateOptions, draws: seq<Draw>): (Ring,
                  Result<Unit>) {
    if newKey.None? then (k, Err(Crypto))
    else if HasRecovery(k.header.stanzas) && opts.recoveryCode.None? then (k, Err(Hardware))
    else
      match RewrapFrom(s, k, newKey.value, opts, draws, 0, 0)
      case Err(e) => (k, Err(e))
      case Ok((stanzas, owners)) => (k.With(stanzas, owners).(dataKey := newKey.value), Ok(Unit))
  }

  /** A body-writing save gives the header fresh seeds and fresh tags. */
  function Reseed(s: Suite, k: Ring, masterSeed: Bytes, noncePrefix: Bytes): (Ring, Result<Unit>) {
    (k.(header := Seal(s, k.header.(masterSeed := masterSeed, noncePrefix := noncePrefix), k.dataKey)), Ok(Unit))
  }

  datatype Step =
    | DoAddRecovery(code: Bytes, nonce: Option<Bytes>)
    | DoEnrollYubiKey(pw: Bytes, response: Bytes, challenge: Bytes, code: Bytes, nonce: Option<Bytes>,
        nonce2: Option<Bytes>)
    | DoEnrollKeyfile(pw: Bytes, keyfile: Bytes, code: Bytes, nonce: Option<Bytes>, nonce2: Option<Bytes>)
    | DoAddFido2(prfOutput: Bytes, fido2: Fido2Extra, nonce: Option<Bytes>)
    | DoSetTpm(tpmIkm: Bytes, tpm: TpmExtra, nonce: Option<Bytes>)
    | DoRemove(kind: byte)
    | DoRefresh(pw: Bytes, response: Bytes, challenge: Bytes, nonce: Option<Bytes>)
    | DoChangeKdf(pw: Bytes, costs: Costs, nonce: Option<Bytes>)
    | DoRotate(newKey: Option<Bytes>, opts: RotateOptions, draws: seq<Draw>)
    | DoReseed(masterSeed: Bytes, noncePrefix: Bytes)
  {
    /** The values have the widths their Rust types give them. */
    ghost predicate Typed(s: Suite) {
      match this
      case DoAddRecovery(_, n) => Drawn(n, WRAP_NONCE_LEN)
      case DoEnrollYubiKey(_, _, c, _, n1, n2) => |c| == CHALLENGE_LEN && Drawn(n1, WRAP_NONCE_LEN)
          && Drawn(n2, WRAP_NONCE_LEN)
      case DoEnrollKeyfile(_, _, _, n1, n2) => Drawn(n1, WRAP_NONCE_LEN) && Drawn(n2, WRAP_NONCE_LEN)
      case DoAddFido2(_, x, n) => x.Typed(s) && Drawn(n, WRAP_NONCE_LEN)
      case DoSetTpm(_, _, n) => Drawn(n, WRAP_NONCE_LEN)
      case DoRemove(_) => true
      case DoRefresh(_, _, c, n) => |c| == CHALLENGE_LEN && Drawn(n, WRAP_NONCE_LEN)
      case DoChangeKdf(_, _, n) => Drawn(n, WRAP_NONCE_LEN)
      case DoRotate(newKey, _, draws) => Drawn(newKey, DATA_KEY_LEN) && DrawsTyped(draws)
      case DoReseed(seed, prefix) => |seed| == 32 && |prefix| == 16
    }
  }

  ghost predicate DrawsTyped(draws: seq<Draw>) {
    forall i :: 0 <= i < |draws| ==> Drawn(draws[i].challenge, CHALLENGE_LEN) && Drawn(draws[i].nonce, WRAP_NONCE_LEN)
  }

  function Apply(s: Suite, k: Ring, step: Step): (Ring, Result<Unit>)
    requires |k.owners| == |k.header.stanzas|
  {
    match step
    case DoAddRecovery(code, n) => AddRecovery(s, k, code, n)
    case DoEnrollYubiKey(pw, r, c, code, n1, n2) => EnrollYubiKey(s, k, pw, r, c, code, n1, n2)
    case DoEnrollKeyfile(pw, f, code, n1, n2) => EnrollKeyfile(s, k, pw, f, code, n1, n2)
    case DoAddFido2(prf, x, n) => AddFido2(s, k, prf, x, n)
    case DoSetTpm(ikm, x, n) => SetTpm(s, k, ikm, x, n)
    case DoRemove(kind) => RemoveType(k, kind)
    case DoRefresh(pw, r, c, n) => RefreshYubiKey(s, k, pw, r, c, n)
    case DoChangeKdf(pw, costs, n) => ChangeKdf(s, k, pw, costs, n)
    case DoRotate(newKey, opts, draws) => Rotate(s, k, newKey, opts, draws)
    case DoReseed(seed, prefix) => Reseed(s, k, seed, prefix)
  }

  // ---------------------------------------------------------------- rewriting the list in place

  /** Overwrite the first password stanza; the others stay. */
  method ReplaceFirstPassword(stanzas: seq<Stanza>, st: Stanza) returns (r: seq<Stanza>)
    ensures r == match Find(stanzas, PASSWORD) case None => stanzas case Some(i) => stanzas[i := st]
  {
    r := stanzas;
    for i := 0 to |stanzas|
      invariant r == stanzas && forall j :: 0 <= j < i ==> stanzas[j].kind != PASSWORD
    {
      if stanzas[i].kind == PASSWORD {
        r := r[i := st];
        assert Find(stanzas, PASSWORD) == Some(i);
        break;
      }
    }
  }

  /** `retain`: the stanzas of other kinds. */
  function Retain(a: seq<Stanza>, kind: byte): seq<Stanza> {
    if a == [] then []
    else if a[0].kind == kind then Retain(a[1..], kind)
    else [a[0]] + Retain(a[1..], kind)
  }

  lemma {:induction false} RetainIsWithout(a: seq<Stanza>, o: seq<Owner>, kind: byte)
    requires |a| == |o|
    ensures Retain(a, kind) == Without(a, o, kind).0
  {
    if a != [] {
      RetainIsWithout(a[1..], o[1..], kind);
    }
  }

  lemma {:induction false} WithoutSameLength(a: seq<Stanza>, o: seq<Owner>, kind: byte)
    requires |a| == |o| && |Without(a, o, kind).0| == |a|
    ensures Without(a, o, kind) == (a, o)
  {
    if a != [] {
      WithoutSameLength(a[1..], o[1..], kind);
      assert [a[0]] + a[1..] == a && [o[0]] + o[1..] == o;
    }
  }

  // ---------------------------------------------------------------- counting stanzas

  lemma {:induction false} CountConcat(a: seq<Stanza>, b: seq<Stanza>, kind: byte)
    ensures Count(a + b, kind) == Count(a, kind) + Count(b, kind)
  {
    if a == [] {
      assert a + b == b;
    } else {
      CountConcat(a[1..], b, kind);
      assert (a + b)[1..] == a[1..] + b;
    }
  }

  lemma CountOne(st: Stanza, kind: byte)
    ensures Count([st], kind) == if st.kind == kind then 1 else 0
  {
    assert [st][1..] == [];
  }

  lemma CountReplace(a: seq<Stanza>, i: nat, st: Stanza, kind: byte)
    requires i < |a| && a[i].kind == st.kind
    ensures Count(a[i := st], kind) == Count(a, kind)
  {
    CountOne(st, kind);
    CountOne(a[i], kind);
    CountConcat(a[..i] + [st], a[i + 1..], kind);
    CountConcat(a[..i], [st], kind);
    CountConcat(a[..i] + [a[i]], a[i + 1..], kind);
    CountConcat(a[..i], [a[i]], kind);
    assert a[i := st] == a[..i] + [st] + a[i + 1..] && a == a[..i] + [a[i]] + a[i + 1..];
  }

  lemma {:induction false} CountZero(a: seq<Stanza>, kind: byte)
    ensures Count(a, kind) == 0 <==> !Has(a, kind)
  {
    if a != [] {
      CountZero(a[1..], kind);
    }
  }

  lemma {:induction false} CountWithout(a: seq<Stanza>, o: seq<Owner>, removed: byte, kind: byte)
    requires |a| == |o|
    ensures Count(Without(a, o, removed).0, kind) == if kind == removed then 0 else Count(a, kind)
  {
    if a != [] {
      CountWithout(a[1..], o[1..], removed, kind);
      var rest := Without(a[1..], o[1..], removed).0;
      assert ([a[0]] + rest)[1..] == rest;
    }
  }

  /** Lists with the same kinds in the same places have the same counts. */
  lemma {:induction false} CountByKinds(a: seq<Stanza>, b: seq<Stanza>, kind: byte)
    requires |a| == |b| && forall i :: 0 <= i < |a| ==> a[i].kind == b[i].kind
    ensures Count(a, kind) == Count(b, kind)
  {
    if a != [] {
      CountByKinds(a[1..], b[1..], kind);
    }
  }

  // ---------------------------------------------------------------- the invariant

  function Composites(a: seq<Stanza>): nat { Count(a, PW_YUBIKEY) + Count(a, PW_KEYFILE) }

  /** How many stanzas of each kind there can be. */
  ghost predicate Shape(a: seq<Stanza>) {
    && 1 <= Count(a, PASSWORD)
    && Count(a, PASSWORD) + Composites(a) <= 2
    && Composites(a) <= 1 && Count(a, FIDO2) <= 1 && Count(a, TPM) <= 1
    && KnownKinds(a)
  }

  predicate Known(kind: byte) { kind in {PASSWORD, PW_YUBIKEY, PW_KEYFILE, FIDO2, TPM} }

  ghost predicate KnownKinds(a: seq<Stanza>) { forall i :: 0 <= i < |a| ==> Known(a[i].kind) }

  lemma {:induction false} CountsAddUp(a: seq<Stanza>)
    requires KnownKinds(a)
    ensures |a| == Count(a, PASSWORD) + Composites(a) + Count(a, FIDO2) + Count(a, TPM)
  {
    if a != [] {
      CountsAddUp(a[1..]);
      assert Known(a[0].kind);
    }
  }

  /** A kind that occurs at most once is found where it occurs. */
  lemma {:induction false} OnlyOne(a: seq<Stanza>, kind: byte, j: nat)
    requires j < |a| && a[j].kind == kind && Count(a, kind) <= 1
    ensures Find(a, kind) == Some(j)
  {
    if j > 0 {
      assert a[1..][j - 1] == a[j];
      CountZero(a[1..], kind);
      OnlyOne(a[1..], kind, j - 1);
    }
  }

  /** Every stanza wraps the current data key under its owner's secrets. */
  ghost predicate AllWrap(s: Suite, k: Ring) {
    EachWraps(s, k.header.stanzas, k.owners, k.header.salt, k.header.vaultId, k.dataKey)
  }

  ghost predicate EachWraps(s: Suite, a: seq<Stanza>, o: seq<Owner>, salt: Bytes, vaultId: Bytes, dk: Bytes) {
    && |a| == |o|
    && forall i {:trigger a[i]} {:trigger o[i]} :: 0 <= i < |a| ==> Wraps(s, a[i], o[i], salt, vaultId, dk)
  }

  lemma EachWrapsCons(s: Suite, st: Stanza, owner: Owner, a: seq<Stanza>, o: seq<Owner>, salt: Bytes,
                      vaultId: Bytes, dk: Bytes)
    requires Wraps(s, st, owner, salt, vaultId, dk) && EachWraps(s, a, o, salt, vaultId, dk)
    ensures EachWraps(s, [st] + a, [owner] + o, salt, vaultId, dk)
  {
    var a', o' := [st] + a, [owner] + o;
    forall i | 0 <= i < |a'| ensures Wraps(s, a'[i], o'[i], salt, vaultId, dk) {
      if i > 0 {
        assert a'[i] == a[i - 1] && o'[i] == o[i - 1];
      }
    }
  }

  lemma EachWrapsTail(s: Suite, a: seq<Stanza>, o: seq<Owner>, salt: Bytes, vaultId: Bytes, dk: Bytes)
    requires EachWraps(s, a, o, salt, vaultId, dk) && a != []
    ensures Wraps(s, a[0], o[0], salt, vaultId, dk) && EachWraps(s, a[1..], o[1..], salt, vaultId, dk)
  {
    forall i | 0 <= i < |a| - 1 ensures Wraps(s, a[1..][i], o[1..][i], salt, vaultId, dk) {
      assert a[1..][i] == a[i + 1] && o[1..][i] == o[i + 1];
    }
  }

  /** The first password stanza was wrapped under the costs the header now has. */
  ghost predicate FirstPasswordCurrent(k: Ring)
    requires |k.owners| == |k.header.stanzas|
  {
    var i := Find(k.header.stanzas, PASSWORD);
    i.Some? ==> k.owners[i.value].costs == k.header.costs
  }

  ghost predicate Inv(s: Suite, k: Ring) {
    && |k.dataKey| == DATA_KEY_LEN
    && AllWrap(s, k)
    && Shape(k.header.stanzas)
    && FirstPasswordCurrent(k)
    && Encodable(k.header)
  }

  // ---------------------------------------------------------------- every step keeps the invariant

  lemma ShapeBounds(s: Suite, k: Ring)
    requires Sized(s) && AllWrap(s, k) && Shape(k.header.stanzas)
    ensures StorableStanzas(k.header.stanzas)
    ensures |k.header.stanzas| <= 4
    ensures Find(k.header.stanzas, PASSWORD).Some?
  {
    CountZero(k.header.stanzas, PASSWORD);
    CountsAddUp(k.header.stanzas);
  }

  lemma FindByKinds(a: seq<Stanza>, b: seq<Stanza>, kind: byte)
    requires |a| == |b| && forall i :: 0 <= i < |a| ==> a[i].kind == b[i].kind
    ensures Find(a, kind) == Find(b, kind)
  {
  }

  lemma FindAppend(a: seq<Stanza>, st: Stanza, kind: byte)
    requires Find(a, kind).Some?
    ensures Find(a + [st], kind) == Find(a, kind)
  {
    var i, j := Find(a, kind).value, Find(a + [st], kind);
    assert (a + [st])[i] == a[i];
    assert forall x :: 0 <= x < i ==> (a + [st])[x] == a[x];
  }

  /** Appending a stanza that wraps the data key keeps the invariant, if the shape allows it. */
  lemma AppendKeeps(s: Suite, k: Ring, st: Stanza, o: Owner)
    requires Sized(s) && Inv(s, k) && Wraps(s, st, o, k.header.salt, k.header.vaultId, k.dataKey)
    requires Shape(k.header.stanzas + [st])
    ensures Inv(s, k.With(k.header.stanzas + [st], k.owners + [o]))
  {
    var k' := k.With(k.header.stanzas + [st], k.owners + [o]);
    ShapeBounds(s, k);
    FindAppend(k.header.stanzas, st, PASSWORD);
    assert AllWrap(s, k');
    ShapeBounds(s, k');
  }

  lemma CountsAfterAppend(a: seq<Stanza>, st: Stanza)
    ensures forall kind {:trigger Count(a + [st], kind)} ::
      Count(a + [st], kind) == Count(a, kind) + if st.kind == kind then 1 else 0
  {
    forall kind: byte ensures Count(a + [st], kind) == Count(a, kind) + if st.kind == kind then 1 else 0 {
      CountConcat(a, [st], kind);
      CountOne(st, kind);
    }
  }

  lemma AddRecoveryKeeps(s: Suite, k: Ring, code: Bytes, nonce: Option<Bytes>)
    requires Sized(s) && Inv(s, k) && Drawn(nonce, WRAP_NONCE_LEN)
    ensures Inv(s, AddRecovery(s, k, code, nonce).0)
  {
    if AddRecovery(s, k, code, nonce).1.Ok? {
      var st := WrapPassword(s, k.dataKey, code, k.Params(), nonce).value;
      WrapPasswordWraps(s, k.dataKey, code, k.Params(), nonce);
      CountZero(k.header.stanzas, PW_YUBIKEY);
      CountZero(k.header.stanzas, PW_KEYFILE);
      CountsAfterAppend(k.header.stanzas, st);
      AppendKeeps(s, k, st, Owner(Password(code), k.header.costs));
    }
  }

  lemma AddFido2Keeps(s: Suite, k: Ring, prfOutput: Bytes, extra: Fido2Extra, nonce: Option<Bytes>)
    requires Sized(s) && Inv(s, k) && Drawn(nonce, WRAP_NONCE_LEN) && extra.Typed(s)
    ensures Inv(s, AddFido2(s, k, prfOutput, extra, nonce).0)
  {
    if AddFido2(s, k, prfOutput, extra, nonce).1.Ok? {
      var st := WrapFido2(s, k.dataKey, prfOutput, k.header.vaultId, extra, nonce).value;
      WrapFido2Wraps(s, k.dataKey, prfOutput, k.header.salt, k.header.vaultId, k.header.costs, extra, nonce);
      CountZero(k.header.stanzas, FIDO2);
      CountsAfterAppend(k.header.stanzas, st);
      AppendKeeps(s, k, st, Owner(Prf(prfOutput), k.header.costs));
    }
  }

  /** Replacing a stanza by one of its own kind keeps shape and kinds. */
  lemma ReplaceKeepsKinds(a: seq<Stanza>, i: nat, st: Stanza)
    requires i < |a| && a[i].kind == st.kind
    ensures Shape(a) ==> Shape(a[i := st])
    ensures forall kind {:trigger Find(a[i := st], kind)} :: Find(a[i := st], kind) == Find(a, kind)
  {
    CountReplace(a, i, st, PASSWORD);
    CountReplace(a, i, st, PW_YUBIKEY);
    CountReplace(a, i, st, PW_KEYFILE);
    CountReplace(a, i, st, FIDO2);
    CountReplace(a, i, st, TPM);
    assert forall j :: 0 <= j < |a| ==> a[i := st][j].kind == a[j].kind;
    forall kind: byte ensures Find(a[i := st], kind) == Find(a, kind) {
      FindByKinds(a[i := st], a, kind);
    }
  }

  lemma SetTpmKeeps(s: Suite, k: Ring, tpmIkm: Bytes, extra: TpmExtra, nonce: Option<Bytes>)
    requires Sized(s) && Inv(s, k) && Drawn(nonce, WRAP_NONCE_LEN)
    ensures Inv(s, SetTpm(s, k, tpmIkm, extra, nonce).0)
  {
    if SetTpm(s, k, tpmIkm, extra, nonce).1.Ok? {
      var st, o := WrapTpm(s, k.dataKey, tpmIkm, k.header.vaultId, extra, nonce).value,
          Owner(TpmSecret(tpmIkm), k.header.costs);
      WrapTpmWraps(s, k.dataKey, tpmIkm, k.header.salt, k.header.vaultId, k.header.costs, extra, nonce);
      assert st.kind == TPM;
      hide Wraps, WrapTpm;
      match Find(k.header.stanzas, TPM)
      case Some(i) =>
        var k' := k.With(k.header.stanzas[i := st], k.owners[i := o]);
        ReplaceKeepsKinds(k.header.stanzas, i, st);
        assert Shape(k'.header.stanzas);
        assert Find(k'.header.stanzas, PASSWORD) == Find(k.header.stanzas, PASSWORD);
        assert AllWrap(s, k');
        ShapeBounds(s, k');
      case None =>
        CountZero(k.header.stanzas, TPM);
        CountsAfterAppend(k.header.stanzas, st);
        AppendKeeps(s, k, st, o);
    }
  }

  lemma {:induction false} WithoutKeepsWraps(s: Suite, a: seq<Stanza>, o: seq<Owner>, kind: byte, salt: Bytes,
                                             vaultId: Bytes, dk: Bytes)
    requires EachWraps(s, a, o, salt, vaultId, dk)
    ensures EachWraps(s, Without(a, o, kind).0, Without(a, o, kind).1, salt, vaultId, dk)
  {
    if a != [] {
      EachWrapsTail(s, a, o, salt, vaultId, dk);
      WithoutKeepsWraps(s, a[1..], o[1..], kind, salt, vaultId, dk);
      if a[0].kind != kind {
        var rest := Without(a[1..], o[1..], kind);
        EachWrapsCons(s, a[0], o[0], rest.0, rest.1, salt, vaultId, dk);
      }
    }
  }

  /** The first stanza of a kind with its owner. */
  ghost function FirstOf(a: seq<Stanza>, o: seq<Owner>, kind: byte): Option<(Stanza, Owner)>
    requires |a| == |o|
  {
    if a == [] then None
    else if a[0].kind == kind then Some((a[0], o[0]))
    else FirstOf(a[1..], o[1..], kind)
  }

  lemma {:induction false} FirstOfFind(a: seq<Stanza>, o: seq<Owner>, kind: byte)
    requires |a| == |o|
    ensures FirstOf(a, o, kind) ==
            match Find(a, kind) case None => None case Some(i) => Some((a[i], o[i]))
  {
    if a != [] && a[0].kind != kind {
      FirstOfFind(a[1..], o[1..], kind);
    }
  }

  /** Removing other kinds leaves the first stanza of a kind first, with its owner. */
  lemma {:induction false} WithoutKeepsFirst(a: seq<Stanza>, o: seq<Owner>, removed: byte, kind: byte)
    requires |a| == |o| && removed != kind
    ensures FirstOf(Without(a, o, removed).0, Without(a, o, removed).1, kind) == FirstOf(a, o, kind)
  {
    if a != [] {
      WithoutKeepsFirst(a[1..], o[1..], removed, kind);
      var rest := Without(a[1..], o[1..], removed);
      if a[0].kind != removed {
        var a', o' := [a[0]] + rest.0, [o[0]] + rest.1;
        assert a'[1..] == rest.0 && o'[1..] == rest.1;
        assert Without(a, o, removed) == (a', o');
      }
    }
  }

  lemma RemoveKeeps(s: Suite, k: Ring, kind: byte)
    requires Sized(s) && Inv(s, k)
    ensures Inv(s, RemoveType(k, kind).0)
  {
    if RemoveType(k, kind).1.Ok? {
      var a, o := k.header.stanzas, k.owners;
      var k' := RemoveType(k, kind).0;
      var a' := k'.header.stanzas;
      WithoutKeepsWraps(s, a, o, kind, k.header.salt, k.header.vaultId, k.dataKey);
      WithoutKeepsFirst(a, o, kind, PASSWORD);
      FirstOfFind(a, o, PASSWORD);
      FirstOfFind(a', k'.owners, PASSWORD);
      CountWithout(a, o, kind, PASSWORD);
      CountWithout(a, o, kind, PW_YUBIKEY);
      CountWithout(a, o, kind, PW_KEYFILE);
      CountWithout(a, o, kind, FIDO2);
      CountWithout(a, o, kind, TPM);
      WithoutKeepsKnown(a, o, kind);
      assert AllWrap(s, k');
      assert Shape(a');
      ShapeBounds(s, k');
      ShapeBounds(s, k);
    }
  }

  lemma {:induction false} WithoutKeepsKnown(a: seq<Stanza>, o: seq<Owner>, kind: byte)
    requires |a| == |o| && KnownKinds(a)
    ensures KnownKinds(Without(a, o, kind).0)
  {
    if a != [] {
      WithoutKeepsKnown(a[1..], o[1..], kind);
      assert Known(a[0].kind);
    }
  }

  lemma CountsOfPair(first: Stanza, second: Stanza, kind: byte)
    ensures Count([first, second], kind)
      == (if first.kind == kind then 1 else 0) + (if second.kind == kind then 1 else 0)
  {
    CountOne(first, kind);
    CountOne(second, kind);
    CountConcat([first], [second], kind);
    assert [first] + [second] == [first, second];
  }

  /** A composite stanza followed by a password stanza is a good pair. */
  lemma PairKeeps(s: Suite, k: Ring, first: Stanza, second: Stanza, o1: Owner, o2: Owner)
    requires Sized(s) && Inv(s, k)
    requires first.kind == PW_YUBIKEY || first.kind == PW_KEYFILE
    requires second.kind == PASSWORD && o2.costs == k.header.costs
    requires Wraps(s, first, o1, k.header.salt, k.header.vaultId, k.dataKey)
    requires Wraps(s, second, o2, k.header.salt, k.header.vaultId, k.dataKey)
    ensures Inv(s, k.With([first, second], [o1, o2]))
  {
    var k', a := k.With([first, second], [o1, o2]), [first, second];
    CountsOfPair(first, second, PASSWORD);
    CountsOfPair(first, second, PW_YUBIKEY);
    CountsOfPair(first, second, PW_KEYFILE);
    CountsOfPair(first, second, FIDO2);
    CountsOfPair(first, second, TPM);
    assert a[1..][0] == second;
    assert Find(a, PASSWORD) == Some(1);
    assert AllWrap(s, k');
    ShapeBounds(s, k');
  }

  lemma EnrollKeeps(s: Suite, k: Ring, composite: Result<Stanza>, secret: Secret, code: Bytes, nonce: Option<Bytes>)
    requires Sized(s) && Inv(s, k) && Drawn(nonce, WRAP_NONCE_LEN)
    requires secret.PasswordAndYubiKey? || secret.PasswordAndKeyfile?
    requires composite.Ok? ==>
      Wraps(s, composite.value, Owner(secret, k.header.costs), k.header.salt, k.header.vaultId, k.dataKey)
    ensures Inv(s, Enroll(s, k, composite, secret, code, nonce).0)
  {
    if Enroll(s, k, composite, secret, code, nonce).1.Ok? {
      WrapPasswordWraps(s, k.dataKey, code, k.Params(), nonce);
      PairKeeps(s, k, composite.value, WrapPassword(s, k.dataKey, code, k.Params(), nonce).value,
                Owner(secret, k.header.costs), Owner(Password(code), k.header.costs));
    }
  }

  lemma RefreshKeeps(s: Suite, k: Ring, pw: Bytes, response: Bytes, challenge: Bytes, nonce: Option<Bytes>)
    requires Sized(s) && Inv(s, k) && Drawn(nonce, WRAP_NONCE_LEN) && |challenge| == CHALLENGE_LEN
    ensures Inv(s, RefreshYubiKey(s, k, pw, response, challenge, nonce).0)
  {
    if RefreshYubiKey(s, k, pw, response, challenge, nonce).1.Ok? {
      var i := Find(k.header.stanzas, PASSWORD).value;
      WrapYubiKeyWraps(s, k.dataKey, pw, response, challenge, k.Params(), nonce);
      PairKeeps(s, k, WrapYubiKey(s, k.dataKey, pw, response, challenge, k.Params(), nonce).value, k.header.stanzas[i],
                Owner(PasswordAndYubiKey(pw, response), k.header.costs), k.owners[i]);
    }
  }

  lemma ChangeKdfKeeps(s: Suite, k: Ring, pw: Bytes, costs: Costs, nonce: Option<Bytes>)
    requires Sized(s) && Inv(s, k) && Drawn(nonce, WRAP_NONCE_LEN)
    ensures Inv(s, ChangeKdf(s, k, pw, costs, nonce).0)
  {
    if ChangeKdf(s, k, pw, costs, nonce).1.Ok? {
      ShapeBounds(s, k);
      var i, k' := Find(k.header.stanzas, PASSWORD).value, ChangeKdf(s, k, pw, costs, nonce).0;
      var p := k.Params().(costs := costs);
      var st := WrapPassword(s, k.dataKey, pw, p, nonce).value;
      WrapPasswordWraps(s, k.dataKey, pw, p, nonce);
      ReplaceKeepsKinds(k.header.stanzas, i, st);
      assert Find(k'.header.stanzas, PASSWORD) == Some(i);
      assert AllWrap(s, k');
      ShapeBounds(s, k');
    }
  }

  lemma RewrapOneWraps(s: Suite, k: Ring, newKey: Bytes, opts: RotateOptions, draw: Draw, kind: byte, pwSeen: nat)
    requires Sized(s) && |newKey| == DATA_KEY_LEN
    requires Drawn(draw.challenge, CHALLENGE_LEN) && Drawn(draw.nonce, WRAP_NONCE_LEN)
    requires RewrapOne(s, k, newKey, opts, draw, kind, pwSeen).Ok?
    ensures var (st, o) := RewrapOne(s, k, newKey, opts, draw, kind, pwSeen).value;
      && Wraps(s, st, o, k.header.salt, k.header.vaultId, newKey)
      && st.kind == kind && o.costs == k.header.costs
  {
    var p := k.Params();
    if kind == PASSWORD {
      var secret := if Is2fa(k.header.stanzas) || pwSeen > 0 then opts.recoveryCode.value else opts.password;
      WrapPasswordWraps(s, newKey, secret, p, draw.nonce);
    } else if kind == PW_YUBIKEY {
      var respond := opts.respond.value;
      WrapYubiKeyWraps(s, newKey, opts.password, respond(draw.challenge.value).value, draw.challenge.value, p,
          draw.nonce);
    } else {
      WrapKeyfileWraps(s, newKey, opts.password, opts.keyfile.value, p, draw.nonce);
    }
  }

  /** Re-wrapped stanzas have the kinds of the old ones and the header's costs. */
  ghost predicate SameKinds(k: Ring, a: seq<Stanza>, o: seq<Owner>, i: nat) {
    && |a| == |o| && i + |a| == |k.header.stanzas|
    && (forall j :: 0 <= j < |a| ==> a[j].kind == k.header.stanzas[i + j].kind)
    && (forall j :: 0 <= j < |o| ==> o[j].costs == k.header.costs)
  }

  lemma SameKindsCons(k: Ring, st: Stanza, owner: Owner, a: seq<Stanza>, o: seq<Owner>, i: nat)
    requires SameKinds(k, a, o, i + 1) && st.kind == k.header.stanzas[i].kind && owner.costs == k.header.costs
    ensures SameKinds(k, [st] + a, [owner] + o, i)
  {
    forall j | 0 <= j < |a| + 1 ensures ([st] + a)[j].kind == k.header.stanzas[i + j].kind {
      if j > 0 {
        assert ([st] + a)[j] == a[j - 1];
        assert a[j - 1].kind == k.header.stanzas[i + 1 + (j - 1)].kind;
      }
    }
  }

  lemma {:induction false} RewrapFromWraps(s: Suite, k: Ring, newKey: Bytes, opts: RotateOptions, draws: seq<Draw>,
                                           i: nat, pwSeen: nat)
    requires Sized(s) && |newKey| == DATA_KEY_LEN && DrawsTyped(draws)
    requires i <= |k.header.stanzas|
    requires RewrapFrom(s, k, newKey, opts, draws, i, pwSeen).Ok?
    ensures var (a, o) := RewrapFrom(s, k, newKey, opts, draws, i, pwSeen).value;
      EachWraps(s, a, o, k.header.salt, k.header.vaultId, newKey) && SameKinds(k, a, o, i)
    decreases |k.header.stanzas| - i
  {
    if i < |k.header.stanzas| {
      var kind := k.header.stanzas[i].kind;
      var seen := if kind == PASSWORD then pwSeen + 1 else pwSeen;
      RewrapOneWraps(s, k, newKey, opts, DrawAt(draws, i), kind, pwSeen);
      RewrapFromWraps(s, k, newKey, opts, draws, i + 1, seen);
      var (st, owner) := RewrapOne(s, k, newKey, opts, DrawAt(draws, i), kind, pwSeen).value;
      var (a, o) := RewrapFrom(s, k, newKey, opts, draws, i + 1, seen).value;
      EachWrapsCons(s, st, owner, a, o, k.header.salt, k.header.vaultId, newKey);
      SameKindsCons(k, st, owner, a, o, i);
    }
  }

  lemma ShapeByKinds(a: seq<Stanza>, b: seq<Stanza>)
    requires |a| == |b| && forall i :: 0 <= i < |a| ==> a[i].kind == b[i].kind
    ensures Shape(a) <==> Shape(b)
  {
    CountByKinds(a, b, PASSWORD);
    CountByKinds(a, b, PW_YUBIKEY);
    CountByKinds(a, b, PW_KEYFILE);
    CountByKinds(a, b, FIDO2);
    CountByKinds(a, b, TPM);
  }

  /** A failed rotation changes nothing; a successful one leaves every stanza wrapping the new key. */
  lemma RotateKeeps(s: Suite, k: Ring, newKey: Option<Bytes>, opts: RotateOptions, draws: seq<Draw>)
    requires Sized(s) && Inv(s, k) && Drawn(newKey, DATA_KEY_LEN) && DrawsTyped(draws)
    ensures var (k', r) := Rotate(s, k, newKey, opts, draws);
      && Inv(s, k')
      && (r.Err? ==> k' == k)
      && (r.Ok? ==> k'.dataKey == newKey.value && |k'.header.stanzas| == |k.header.stanzas|)
  {
    var (k', r) := Rotate(s, k, newKey, opts, draws);
    if r.Ok? {
      RewrapFromWraps(s, k, newKey.value, opts, draws, 0, 0);
      assert forall j :: 0 <= j < |k'.header.stanzas| ==> k'.header.stanzas[j].kind == k.header.stanzas[0 + j].kind;
      ShapeByKinds(k'.header.stanzas, k.header.stanzas);
      assert AllWrap(s, k');
      ShapeBounds(s, k');
    }
  }

  lemma ReseedKeeps(s: Suite, k: Ring, masterSeed: Bytes, noncePrefix: Bytes)
    requires Sized(s) && Inv(s, k) && |masterSeed| == 32 && |noncePrefix| == 16
    ensures Inv(s, Reseed(s, k, masterSeed, noncePrefix).0)
  {
  }

  lemma InvOwners(s: Suite, k: Ring)
    requires Inv(s, k)
    ensures |k.owners| == |k.header.stanzas| && |k.dataKey| == DATA_KEY_LEN
  {
  }

  /** One step, whatever it is and whatever it draws, keeps the invariant; a step that fails changes nothing. */
  lemma StepKeeps(s: Suite, k: Ring, step: Step)
    requires Sized(s) && Inv(s, k) && step.Typed(s)
    ensures Inv(s, Apply(s, k, step).0)
    ensures Apply(s, k, step).1.Err? ==> Apply(s, k, step).0 == k
  {
    hide Inv, Wraps, WrapPassword, WrapYubiKey, WrapKeyfile, WrapFido2, WrapTpm, RewrapFrom;
    InvOwners(s, k);
    match step
    case DoAddRecovery(code, n) => AddRecoveryKeeps(s, k, code, n);
    case DoEnrollYubiKey(pw, r, c, code, n1, n2) =>
      if WrapYubiKey(s, k.dataKey, pw, r, c, k.Params(), n1).Ok? {
        WrapYubiKeyWraps(s, k.dataKey, pw, r, c, k.Params(), n1);
      }
      EnrollKeeps(s, k, WrapYubiKey(s, k.dataKey, pw, r, c, k.Params(), n1), PasswordAndYubiKey(pw, r), code, n2);
    case DoEnrollKeyfile(pw, f, code, n1, n2) =>
      if WrapKeyfile(s, k.dataKey, pw, f, k.Params(), n1).Ok? {
        WrapKeyfileWraps(s, k.dataKey, pw, f, k.Params(), n1);
      }
      EnrollKeeps(s, k, WrapKeyfile(s, k.dataKey, pw, f, k.Params(), n1), PasswordAndKeyfile(pw, f), code, n2);
    case DoAddFido2(prf, x, n) => AddFido2Keeps(s, k, prf, x, n);
    case DoSetTpm(ikm, x, n) => SetTpmKeeps(s, k, ikm, x, n);
    case DoRemove(kind) => RemoveKeeps(s, k, kind);
    case DoRefresh(pw, r, c, n) => RefreshKeeps(s, k, pw, r, c, n);
    case DoChangeKdf(pw, costs, n) => ChangeKdfKeeps(s, k, pw, costs, n);
    case DoRotate(newKey, opts, draws) => RotateKeeps(s, k, newKey, opts, draws);
    case DoReseed(seed, prefix) => ReseedKeeps(s, k, seed, prefix);
  }

  // ---------------------------------------------------------------- whole runs

  /** A fresh vault: one password stanza wrapping a random data key. */
  function Create(s: Suite, fields: Header, dataKey: Bytes, pw: Bytes, nonce: Option<Bytes>): Result<Ring> {
    var st :- WrapPassword(s, dataKey, pw, ParamsOf(fields), nonce);
    Ok(Ring(fields.(stanzas := [st]), dataKey, [Owner(Password(pw), fields.costs)]))
  }

  lemma CreateEstablishes(s: Suite, fields: Header, dataKey: Bytes, pw: Bytes, nonce: Option<Bytes>)
    requires Sized(s) && Encodable(fields) && |dataKey| == DATA_KEY_LEN && Drawn(nonce, WRAP_NONCE_LEN)
    requires Create(s, fields, dataKey, pw, nonce).Ok?
    ensures Inv(s, Create(s, fields, dataKey, pw, nonce).value)
  {
    WrapPasswordWraps(s, dataKey, pw, ParamsOf(fields), nonce);
    var k := Create(s, fields, dataKey, pw, nonce).value;
    var st := k.header.stanzas[0];
    CountOne(st, PASSWORD);
    CountOne(st, PW_YUBIKEY);
    CountOne(st, PW_KEYFILE);
    CountOne(st, FIDO2);
    CountOne(st, TPM);
    assert AllWrap(s, k);
    ShapeBounds(s, k);
  }

  /** The steps of a run in order; failed ones leave the ring as it was. */
  ghost function Run(s: Suite, k: Ring, steps: seq<Step>): Ring
    requires Sized(s) && Inv(s, k) && forall i :: 0 <= i < |steps| ==> steps[i].Typed(s)
    decreases |steps|
  {
    if steps == [] then k
    else
      StepKeeps(s, k, steps[0]);
      Run(s, Apply(s, k, steps[0]).0, steps[1..])
  }

  /**
   Every vault any run can reach: it keeps a password stanza, one composite, FIDO2 and TPM stanza at
   most, four stanzas at most, and every stanza wraps the current data key.
   */
  lemma {:induction false} RunKeeps(s: Suite, k: Ring, steps: seq<Step>)
    requires Sized(s) && Inv(s, k) && forall i :: 0 <= i < |steps| ==> steps[i].Typed(s)
    ensures var k' := Run(s, k, steps);
      && Inv(s, k')
      && 1 <= Count(k'.header.stanzas, PASSWORD) && |k'.header.stanzas| <= 4
    decreases |steps|
  {
    StepInBounds(s, k);
    if steps != [] {
      StepKeeps(s, k, steps[0]);
      RunKeeps(s, Apply(s, k, steps[0]).0, steps[1..]);
    }
  }

  lemma StepInBounds(s: Suite, k: Ring)
    requires Sized(s) && Inv(s, k)
    ensures 1 <= Count(k.header.stanzas, PASSWORD) && |k.header.stanzas| <= 4
  {
    ShapeBounds(s, k);
  }
}
