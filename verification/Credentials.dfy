/** The guest's credential check: format, proof of possession, verification window. */
module Credentials {
  import opened Fnv
  import opened Text
  import opened Hex

  function Min(a: nat, b: nat): nat {
    if a <= b then a else b
  }

  /** The hex of the first sixteen bytes of the credential. */
  function Fingerprint(credential: string): string {
    HexOf(Utf8(credential)[..Min(16, |Utf8(credential)|)])
  }

  predicate VerifyPossessionProof(credential: string, proof: string) {
    "pop:" <= proof &&
    var payload := proof[4..];
    |Utf8(payload)| >= 16 && EqIgnoreCase(payload, Fingerprint(credential))
  }

  predicate IsCredentialByte(b: byte) {
    48 <= b <= 57 || 65 <= b <= 70 || 97 <= b <= 102 || b == 58
  }

  predicate ValidateCredentialFormat(credential: string) {
    |Utf8(credential)| >= 32 && forall b :: b in Utf8(credential) ==> IsCredentialByte(b)
  }

  /** A proof is accepted exactly when the credential has at least eight bytes and the proof is
      "pop:" followed by the fingerprint, up to letter case. */
  lemma PossessionIff(credential: string, proof: string)
    ensures VerifyPossessionProof(credential, proof) <==>
      |Utf8(credential)| >= 8 &&
      exists payload :: proof == "pop:" + payload && Lower(payload) == Fingerprint(credential)
  {
    var k := Min(16, |Utf8(credential)|);
    var bytes := Utf8(credential)[..k];
    LowerOfHex(bytes);
    HexOfIsLower(bytes);
    if VerifyPossessionProof(credential, proof) {
      var payload := proof[4..];
      assert proof == "pop:" + payload;
      CaseOfHex(payload, bytes);
      Utf8OfAscii(payload);
    }
    forall payload | |Utf8(credential)| >= 8 && proof == "pop:" + payload && Lower(payload) == Fingerprint(credential)
      ensures VerifyPossessionProof(credential, proof)
    {
      assert proof[4..] == payload;
      assert EqIgnoreCase(payload, HexOf(bytes)) by {
        forall i | 0 <= i < |payload| ensures LowerChar(payload[i]) == LowerChar(HexOf(bytes)[i]) {
          assert Lower(payload)[i] == HexOf(bytes)[i] && Lower(HexOf(bytes))[i] == HexOf(bytes)[i];
        }
      }
      CaseOfHex(payload, bytes);
      Utf8OfAscii(payload);
    }
  }

  /** Text equal to printed hex up to case is ASCII, and folds to the printed hex. */
  lemma CaseOfHex(payload: string, bytes: seq<byte>)
    requires EqIgnoreCase(payload, HexOf(bytes))
    ensures IsAscii(payload) && Lower(payload) == HexOf(bytes)
  {
    HexOfIsLower(bytes);
    LowerOfHex(bytes);
    forall i | 0 <= i < |payload| ensures payload[i] as int < 0x80 && Lower(payload)[i] == HexOf(bytes)[i] {
      assert Lower(HexOf(bytes))[i] == HexOf(bytes)[i];
    }
  }

  /** A well-formed credential is ASCII, so its bytes are its characters. */
  lemma WellFormedIsAscii(credential: string)
    requires ValidateCredentialFormat(credential)
    ensures IsAscii(credential) && |credential| >= 32
    ensures |Utf8(credential)| == |credential|
    ensures forall i :: 0 <= i < |credential| ==> Utf8(credential)[i] == credential[i] as int
  {
    AsciiOfUtf8(credential);
    Utf8OfAscii(credential);
  }

  /** One proof binds sixteen characters: two well-formed credentials accepting it agree on them. */
  lemma ProofBindsCredential(c: string, d: string, proof: string)
    requires ValidateCredentialFormat(c) && ValidateCredentialFormat(d)
    requires VerifyPossessionProof(c, proof) && VerifyPossessionProof(d, proof)
    ensures |c| >= 16 && |d| >= 16 && c[..16] == d[..16]
  {
    WellFormedIsAscii(c);
    WellFormedIsAscii(d);
    var bc, bd := Utf8(c)[..16], Utf8(d)[..16];
    CaseOfHex(proof[4..], bc);
    CaseOfHex(proof[4..], bd);
    HexInjective(bc, bd);
    forall i | 0 <= i < 16 ensures c[i] == d[i] {
      assert Utf8(c)[i] == bc[i] && Utf8(d)[i] == bd[i];
    }
  }

  lemma CredentialByteIff(c: char)
    ensures c as int < 128 && IsCredentialByte(c as int) <==> c in "0123456789abcdefABCDEF:"
  {
    IsHexDigitIff(c);
    assert c in "0123456789abcdefABCDEF:" <==> c in "0123456789abcdefABCDEF" || c == ':' by {
      assert "0123456789abcdefABCDEF:" == "0123456789abcdefABCDEF" + ":";
    }
  }

  /** A credential is well formed exactly when it has at least 32 characters, all hex digits or colons. */
  lemma WellFormedIff(credential: string)
    ensures ValidateCredentialFormat(credential) <==>
      |credential| >= 32 && forall i :: 0 <= i < |credential| ==> credential[i] in "0123456789abcdefABCDEF:"
  {
    if ValidateCredentialFormat(credential) {
      WellFormedIsAscii(credential);
      forall i | 0 <= i < |credential| ensures credential[i] in "0123456789abcdefABCDEF:" {
        assert Utf8(credential)[i] in Utf8(credential);
        CredentialByteIff(credential[i]);
      }
    }
    if |credential| >= 32 && forall i :: 0 <= i < |credential| ==> credential[i] in "0123456789abcdefABCDEF:" {
      forall i | 0 <= i < |credential| ensures credential[i] as int < 128 && IsCredentialByte(credential[i] as int) {
        CredentialByteIff(credential[i]);
      }
      Utf8OfAscii(credential);
    }
  }

  // ---------- the verdict

  datatype CredentialOutput = CredentialOutput(
    credentialValid: bool, possessionProven: bool, withinVerificationWindow: bool, verifiedAt: nat)

  datatype CredentialResult = Ok(output: CredentialOutput) | InvalidWindow

  function VerifyCredential(credential: string, proof: string, start: nat, end: nat): CredentialResult {
    if start >= end then InvalidWindow
    else
      var verifiedAt := 0;
      Ok(CredentialOutput(ValidateCredentialFormat(credential), VerifyPossessionProof(credential, proof),
                          verifiedAt >= start && verifiedAt <= end, verifiedAt))
  }

  /** Each output on its own: the window must not be empty; the guest has no clock and verifies at time 0, which
      only a window starting at 0 contains; and the proof is "pop:" and, up to letter case, the hex of the
      credential's first sixteen bytes. */
  lemma VerdictIs(credential: string, proof: string, start: nat, end: nat)
    ensures VerifyCredential(credential, proof, start, end).InvalidWindow? <==> start >= end
    ensures start < end ==>
      var r, bytes := VerifyCredential(credential, proof, start, end).output, Utf8(credential);
      && r.verifiedAt == 0
      && (r.withinVerificationWindow <==> start == 0)
      && (r.credentialValid <==>
            |credential| >= 32 && forall i :: 0 <= i < |credential| ==> credential[i] in "0123456789abcdefABCDEF:")
      && (r.possessionProven <==>
            |bytes| >= 8 && exists payload :: proof == "pop:" + payload
                                              && Lower(payload) == HexOf(if |bytes| <= 16 then bytes else bytes[..16]))
  {
    WellFormedIff(credential);
    PossessionIff(credential, proof);
    assert Utf8(credential)[..|Utf8(credential)|] == Utf8(credential);
  }

  /** All three checks pass exactly when the window is non-empty and starts at 0, the credential is well formed,
      and the proof is the hex of its first sixteen characters. */
  lemma AcceptedIff(credential: string, proof: string, start: nat, end: nat)
    ensures
      (var r := VerifyCredential(credential, proof, start, end);
       r.Ok? && r.output.credentialValid && r.output.possessionProven && r.output.withinVerificationWindow)
      <==>
      && start == 0 < end
      && |credential| >= 32 && (forall i :: 0 <= i < |credential| ==> credential[i] in "0123456789abcdefABCDEF:")
      && exists payload :: proof == "pop:" + payload && Lower(payload) == HexOf(Utf8(credential[..16]))
  {
    VerdictIs(credential, proof, start, end);
    if ValidateCredentialFormat(credential) {
      WellFormedIsAscii(credential);
      Utf8OfAscii(credential[..16]);
      assert Utf8(credential)[..16] == Utf8(credential[..16]);
    }
    WellFormedIff(credential);
  }
}
