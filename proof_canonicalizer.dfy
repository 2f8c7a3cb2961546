/**
 * Proof canonicalisation. The proving backend puts the public inputs, 32 bytes
 * each, in front of the proof bytes; cleanProofFromPublicData removes their
 * hex (64 characters per input) from the hex proof, and the verify path of the
 * application joins the public input's hex back in front before decoding the
 * whole string to bytes for the verifier.
 */
module ProofCanonicalizer {
  import opened JsSemantics
  import opened HexCodec

  /** Hex characters per public input: 32 bytes, two digits each. */
  const HexCharsPerInput: nat := 64

  /** proof.slice(numberOfInputs * 64) */
  function CleanProofFromPublicData(proof: string, numberOfInputs: int): (r: string)
    ensures 0 <= numberOfInputs && numberOfInputs * 64 <= |proof| ==> r == proof[numberOfInputs * 64..]
    ensures 0 <= numberOfInputs && numberOfInputs * 64 > |proof| ==> r == []
    ensures |r| <= |proof|
  {
    SliceFrom(proof, numberOfInputs * HexCharsPerInput)
  }

  /** The verify path's [publicInput, proof].join(""): the public input's hex, then the canonical proof. */
  function VerificationInput(publicInputHex: string, cleanedProof: string): (r: string)
    ensures |r| == |publicInputHex| + |cleanedProof|
    ensures r[..|publicInputHex|] == publicInputHex && r[|publicInputHex|..] == cleanedProof
  {
    publicInputHex + cleanedProof
  }

  /** Putting back the characters that were stripped restores the raw proof hex. */
  lemma StripThenPrefixRestores(proof: string, numberOfInputs: nat)
    requires numberOfInputs * 64 <= |proof|
    ensures VerificationInput(proof[..numberOfInputs * 64], CleanProofFromPublicData(proof, numberOfInputs)) == proof
  {
    var cut := numberOfInputs * 64;
    assert proof[..cut] + proof[cut..] == proof;
  }

  /** The canonical form of an encoded raw proof is the encoding of the bytes after the public inputs. */
  lemma CleanEncodedProof(raw: seq<byte>, numberOfInputs: nat)
    requires numberOfInputs * 32 <= |raw|
    ensures CleanProofFromPublicData(BytesToHex(raw), numberOfInputs) == BytesToHex(raw[numberOfInputs * 32..])
    ensures BytesToHex(raw)[..numberOfInputs * 64] == BytesToHex(raw[..numberOfInputs * 32])
  {
    var cut := numberOfInputs * 32;
    assert raw == raw[..cut] + raw[cut..];
    BytesToHexAppend(raw[..cut], raw[cut..]);
  }

  /**
   * The verify path recovers the raw proof byte for byte: the public inputs'
   * hex joined with the canonical proof decodes to what the prover produced.
   */
  lemma VerifyPathRecoversRawProof(raw: seq<byte>, numberOfInputs: nat)
    requires numberOfInputs * 32 <= |raw|
    ensures DecodeHex(VerificationInput(BytesToHex(raw[..numberOfInputs * 32]),
                                        CleanProofFromPublicData(BytesToHex(raw), numberOfInputs))) == raw
  {
    CleanEncodedProof(raw, numberOfInputs);
    StripThenPrefixRestores(BytesToHex(raw), numberOfInputs);
    DecodeEncode(raw);
  }

  /**
   * With one public input supplied as any 64 hex digits (in either case) that
   * spell the raw proof's first 32 bytes, the verify path still decodes to the
   * raw proof.
   */
  lemma VerifyPathWithTypedDigest(publicInputHex: string, raw: seq<byte>)
    requires 32 <= |raw| && |publicInputHex| == 64 && IsHexString(publicInputHex)
    requires DecodeHex(publicInputHex) == raw[..32]
    ensures DecodeHex(VerificationInput(publicInputHex, CleanProofFromPublicData(BytesToHex(raw), 1))) == raw
  {
    var rest := BytesToHex(raw[32..]);
    assert CleanProofFromPublicData(BytesToHex(raw), 1) == rest by {
      CleanEncodedProof(raw, 1);
    }
    assert DecodeHex(publicInputHex + rest) == raw[..32] + raw[32..] by {
      DecodeHexAppend(publicInputHex, rest);
      DecodeEncode(raw[32..]);
    }
    assert raw[..32] + raw[32..] == raw;
  }
}
