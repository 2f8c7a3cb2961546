/**
 * padHexString: turning a hex digest into a circuit input token of a fixed
 * byte width, optionally marked with the "0x" prefix the circuit runtime reads
 * as a hex integer literal.
 */
module FieldElement {
  import opened JsSemantics
  import opened HexCodec

  /** The marker that tells the circuit runtime the token is a hex integer. */
  const HexId: string := "0x"

  /**
   * Left-pads hexString with '0' to 2 * lengthInBytes characters; a string that
   * is already that long is kept whole (never truncated). With withHexId the
   * result carries the "0x" marker in front.
   */
  function PadHexString(hexString: string, lengthInBytes: int, withHexId: bool): (r: string)
    ensures |r| == |Marker(withHexId)| + Max(|hexString|, 2 * lengthInBytes)
    ensures r[..|Marker(withHexId)|] == Marker(withHexId)
    ensures r[|r| - |hexString|..] == hexString
    ensures forall i :: |Marker(withHexId)| <= i < |r| - |hexString| ==> r[i] == '0'
  {
    var targetLength := lengthInBytes * 2;
    if |hexString| >= targetLength then
      (if withHexId then HexId + hexString else hexString)
    else
      var paddingLength := targetLength - |hexString|;
      var padding := Repeat('0', paddingLength);
      if withHexId then HexId + padding + hexString else padding + hexString
  }

  /** The prefix a token carries: "0x" or nothing. */
  function Marker(withHexId: bool): string {
    if withHexId then HexId else ""
  }

  /** Padding never truncates: a long enough input comes back as it is, marked when asked. */
  lemma PadKeepsLongInput(hexString: string, lengthInBytes: int, withHexId: bool)
    requires |hexString| >= 2 * lengthInBytes
    ensures PadHexString(hexString, lengthInBytes, withHexId) == Marker(withHexId) + hexString
  {
    var r := PadHexString(hexString, lengthInBytes, withHexId);
    assert r == r[..|Marker(withHexId)|] + r[|Marker(withHexId)|..];
  }

  /** A short input is zero-filled to exactly 2 * lengthInBytes characters, ending with the input. */
  lemma PadShortInput(hexString: string, lengthInBytes: int)
    requires |hexString| < 2 * lengthInBytes
    ensures PadHexString(hexString, lengthInBytes, false)
      == Repeat('0', 2 * lengthInBytes - |hexString|) + hexString
  {
    var r := PadHexString(hexString, lengthInBytes, false);
    var n := 2 * lengthInBytes - |hexString|;
    assert r[..n] == Repeat('0', n);
    assert r == r[..n] + r[n..];
  }

  /** The marked token is the "0x" marker followed by the unmarked token. */
  lemma MarkedIsHexIdPlusUnmarked(hexString: string, lengthInBytes: int)
    ensures PadHexString(hexString, lengthInBytes, true)
      == HexId + PadHexString(hexString, lengthInBytes, false)
  {
    var r := PadHexString(hexString, lengthInBytes, true);
    var u := PadHexString(hexString, lengthInBytes, false);
    assert |r| == 2 + |u|;
    forall i | 0 <= i < |r|
      ensures r[i] == (HexId + u)[i]
    {
      if i < 2 {
        assert r[..2][i] == HexId[i];
      } else if i < |r| - |hexString| {
        assert u[i - 2] == '0';
      } else {
        assert r[|r| - |hexString|..][i - (|r| - |hexString|)] == hexString[i - (|r| - |hexString|)];
        assert u[|u| - |hexString|..][i - (|r| - |hexString|)] == hexString[i - (|r| - |hexString|)];
      }
    }
  }

  /** A 32-byte token for at most 64 hex characters is 66 characters long, "0x" first. */
  lemma Bytes32TokenShape(hexString: string)
    requires |hexString| <= 64
    ensures |PadHexString(hexString, 32, true)| == 66
    ensures PadHexString(hexString, 32, true)[..2] == "0x"
  {
  }

  /**
   * The input token built from a SHA-256 digest is "0x" and the digest's 64
   * lowercase hex digits, with no padding added.
   */
  lemma DigestToken(digest: seq<byte>)
    requires |digest| == 32
    ensures PadHexString(BytesToHex(digest), 32, true) == "0x" + BytesToHex(digest)
    ensures |PadHexString(BytesToHex(digest), 32, true)| == 66
  {
    DigestHexShape(digest);
    PadKeepsLongInput(BytesToHex(digest), 32, true);
  }
}
