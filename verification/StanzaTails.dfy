/**
 The public fields stored after the wrapped key in FIDO2 and TPM stanzas (envelope/fido2.rs,
 envelope/tpm.rs).
 */
module StanzaTails {
  import opened Bytes
  import opened Primitives

  const MAX_CREDENTIAL_ID_LEN := 1023
  const MAX_RP_ID_LEN := 253
  const MAX_SEALED_BLOB_LEN := 2048
  const SALT_HASH_LEN := 32

  /** `relyingPartyId` is the UTF-8 form of a string. */
  datatype Fido2Extra = Fido2Extra(credentialId: Bytes, relyingPartyId: Bytes, saltHash: Bytes) {
    /** What the Rust type guarantees: a string is valid UTF-8, the hash is 32 bytes. */
    ghost predicate Typed(s: Suite) {
      s.utf8(relyingPartyId) && |saltHash| == SALT_HASH_LEN
    }

    ghost predicate InBounds() {
      |credentialId| <= MAX_CREDENTIAL_ID_LEN && 1 <= |relyingPartyId| <= MAX_RP_ID_LEN
    }

    function Serialize(): Result<Bytes> {
      if |credentialId| > MAX_CREDENTIAL_ID_LEN then Err(BodyMalformed)
      else if relyingPartyId == [] || |relyingPartyId| > MAX_RP_ID_LEN then Err(BodyMalformed)
      else Ok(LE(|credentialId|, 2) + credentialId + [|relyingPartyId|] + relyingPartyId + saltHash)
    }

    static function Parse(s: Suite, extra: Bytes): Result<Fido2Extra> {
      if |extra| < 2 + 1 + SALT_HASH_LEN then Err(BodyMalformed)
      else
        var credLen := FromLE(extra[..2]);
        var credEnd := 2 + credLen;
        if credLen > MAX_CREDENTIAL_ID_LEN then Err(BodyMalformed)
        else if |extra| < credEnd + 1 + SALT_HASH_LEN then Err(BodyMalformed)
        else
          var rpLen := extra[credEnd];
          var rpStart, rpEnd := credEnd + 1, credEnd + 1 + rpLen;
          if rpLen == 0 || rpLen > MAX_RP_ID_LEN then Err(BodyMalformed)
          else if |extra| != rpEnd + SALT_HASH_LEN then Err(BodyMalformed)
          else if !s.utf8(extra[rpStart..rpEnd]) then Err(BodyMalformed)
          else Ok(Fido2Extra(extra[2..credEnd], extra[rpStart..rpEnd], extra[rpEnd..]))
    }
  }

  /** A value serialises exactly when it is in bounds, and parsing gives it back. */
  lemma Fido2PrintParse(s: Suite, x: Fido2Extra)
    requires x.Typed(s)
    ensures x.Serialize().Ok? <==> x.InBounds()
    ensures x.InBounds() ==> Fido2Extra.Parse(s, x.Serialize().value) == Ok(x)
    ensures x.InBounds() ==> |x.Serialize().value| <= 1311
  {
    if x.InBounds() {
      var b, c, r := x.Serialize().value, |x.credentialId|, |x.relyingPartyId|;
      Pow256Widths();
      LERoundTrip(c, 2);
      assert b[..2] == LE(c, 2) && b[2..2 + c] == x.credentialId && b[2 + c] == r;
      assert b[3 + c..3 + c + r] == x.relyingPartyId && b[3 + c + r..] == x.saltHash;
    }
  }

  /** Every accepted byte string is reproduced by printing what it parsed to: the encoding is canonical. */
  lemma Fido2ParsePrint(s: Suite, b: Bytes)
    requires Fido2Extra.Parse(s, b).Ok?
    ensures var x := Fido2Extra.Parse(s, b).value;
      x.Typed(s) && x.InBounds() && x.Serialize() == Ok(b)
  {
    var x := Fido2Extra.Parse(s, b).value;
    FromLERoundTrip(b[..2]);
    var credEnd := 2 + |x.credentialId|;
    var rpEnd := credEnd + 1 + |x.relyingPartyId|;
    assert b == b[..2] + b[2..credEnd] + [b[credEnd]] + b[credEnd + 1..rpEnd] + b[rpEnd..];
  }

  datatype TpmExtra = TpmExtra(pcrBank: byte, pcrMask: u32, sealedBlob: Bytes) {
    ghost predicate InBounds() {
      |sealedBlob| <= MAX_SEALED_BLOB_LEN
    }

    function Serialize(): Result<Bytes> {
      if |sealedBlob| > MAX_SEALED_BLOB_LEN then Err(BodyMalformed)
      else Ok([pcrBank] + LE(pcrMask, 4) + LE(|sealedBlob|, 2) + sealedBlob)
    }

    static function Parse(extra: Bytes): Result<TpmExtra> {
      if |extra| < 1 + 4 + 2 then Err(BodyMalformed)
      else
        var blobLen := FromLE(extra[5..7]);
        if blobLen > MAX_SEALED_BLOB_LEN then Err(BodyMalformed)
        else if |extra| != 7 + blobLen then Err(BodyMalformed)
        else
          MaskFits(extra[1..5]);
          Ok(TpmExtra(extra[0], FromLE(extra[1..5]), extra[7..]))
    }
  }

  lemma MaskFits(b: Bytes)
    requires |b| == 4
    ensures FromLE(b) <= U32_MAX
  {
    FromLERoundTrip(b);
    Pow256Widths();
  }

  lemma TpmPrintParse(x: TpmExtra)
    ensures x.Serialize().Ok? <==> x.InBounds()
    ensures x.InBounds() ==> TpmExtra.Parse(x.Serialize().value) == Ok(x)
    ensures x.InBounds() ==> |x.Serialize().value| <= 2055
  {
    if x.InBounds() {
      var b := x.Serialize().value;
      Pow256Widths();
      LERoundTrip(x.pcrMask, 4);
      LERoundTrip(|x.sealedBlob|, 2);
      assert b[1..5] == LE(x.pcrMask, 4) && b[5..7] == LE(|x.sealedBlob|, 2) && b[7..] == x.sealedBlob;
    }
  }

  lemma TpmParsePrint(b: Bytes)
    requires TpmExtra.Parse(b).Ok?
    ensures var x := TpmExtra.Parse(b).value;
      x.InBounds() && x.Serialize() == Ok(b)
  {
    FromLERoundTrip(b[1..5]);
    FromLERoundTrip(b[5..7]);
    assert b == [b[0]] + b[1..5] + b[5..7] + b[7..];
  }
}
