/**
 * Hex rendering of byte buffers (the digest in stringToDigest and the proof in
 * generateProof) and the decoder hexStringToUint8Array used on the verify path.
 * The rendering is Base16 as in section 8 of RFC 4648 with the lowercase
 * alphabet: two digits per byte, high nibble first, zero-padded.
 */
module HexCodec {
  import opened JsSemantics

  /** byte.toString(16).padStart(2, '0') */
  function ByteToHex(b: byte): (r: string)
    ensures r == [HexChar(b / 16), HexChar(b % 16)]
  {
    var digits := NumberToHexString(b);
    assert b >= 16 ==> NumberToHexString(b / 16) == [HexChar(b / 16)];
    PadStart(digits, 2, '0')
  }

  /** Renders every byte as two characters. */
  predicate TwoCharsEach(render: byte -> string) {
    forall b: byte :: |render(b)| == 2
  }

  /** bytes.map(render).join(''): the renderings, in order, with no separator. */
  function MapJoin(bs: seq<byte>, render: byte -> string): (r: string)
    requires TwoCharsEach(render)
    ensures |r| == 2 * |bs|
  {
    if bs == [] then [] else render(bs[0]) + MapJoin(bs[1..], render)
  }

  /** Byte k is rendered at characters 2k and 2k + 1. */
  lemma {:induction false} MapJoinAt(bs: seq<byte>, k: nat, render: byte -> string)
    requires TwoCharsEach(render) && k < |bs|
    ensures MapJoin(bs, render)[2 * k] == render(bs[k])[0]
    ensures MapJoin(bs, render)[2 * k + 1] == render(bs[k])[1]
  {
    var head, rest := render(bs[0]), MapJoin(bs[1..], render);
    assert MapJoin(bs, render) == head + rest;
    if k > 0 {
      MapJoinAt(bs[1..], k - 1, render);
      assert bs[1..][k - 1] == bs[k];
      assert MapJoin(bs, render)[2 * k] == rest[2 * k - 2];
      assert MapJoin(bs, render)[2 * k + 1] == rest[2 * k - 1];
    }
  }

  /** Rendering distributes over concatenation of buffers. */
  lemma {:induction false} MapJoinAppend(a: seq<byte>, b: seq<byte>, render: byte -> string)
    requires TwoCharsEach(render)
    ensures MapJoin(a + b, render) == MapJoin(a, render) + MapJoin(b, render)
  {
    if a == [] {
      assert a + b == b;
    } else {
      assert (a + b)[1..] == a[1..] + b;
      MapJoinAppend(a[1..], b, render);
    }
  }

  /** Array.from(bytes).map(byte => byte.toString(16).padStart(2, '0')).join('') */
  function BytesToHex(bs: seq<byte>): (r: string)
    ensures |r| == 2 * |bs|
  {
    MapJoin(bs, ByteToHex)
  }

  /** Byte k of the buffer occupies characters 2k and 2k + 1: high nibble, then low nibble. */
  lemma BytesToHexAt(bs: seq<byte>, k: nat)
    requires k < |bs|
    ensures BytesToHex(bs)[2 * k] == HexChar(bs[k] / 16)
    ensures BytesToHex(bs)[2 * k + 1] == HexChar(bs[k] % 16)
  {
    MapJoinAt(bs, k, ByteToHex);
  }

  /** Every character of an encoding is a lowercase hex digit. */
  lemma BytesToHexIsLowerHex(bs: seq<byte>)
    ensures forall i :: 0 <= i < |BytesToHex(bs)| ==> IsLowerHexDigit(BytesToHex(bs)[i])
  {
    var r := BytesToHex(bs);
    forall i | 0 <= i < |r|
      ensures IsLowerHexDigit(r[i])
    {
      var k := i / 2;
      BytesToHexAt(bs, k);
      assert i == 2 * k || i == 2 * k + 1;
    }
  }

  /** Encoding distributes over concatenation of buffers. */
  lemma BytesToHexAppend(a: seq<byte>, b: seq<byte>)
    ensures BytesToHex(a + b) == BytesToHex(a) + BytesToHex(b)
  {
    MapJoinAppend(a, b, ByteToHex);
  }

  // ---------------------------------------------------------------------------
  // Decoding

  /** A string all of whose characters are hex digits, in either case. */
  predicate IsHexString(h: string) {
    forall i :: 0 <= i < |h| ==> IsHexDigit(h[i])
  }

  /** parseInt(pair, 16) stored into a Uint8Array. */
  function PairValue(pair: string): byte {
    ToUint8(ParseInt16(pair))
  }

  /**
   * The string read two characters at a time, each pair (and a trailing lone
   * character) turned into a byte by `parse`.
   */
  function DecodePairs(h: string, parse: string -> byte): (bs: seq<byte>)
    ensures |bs| == (|h| + 1) / 2
    decreases |h|
  {
    if h == [] then []
    else if |h| < 2 then [parse(h)]
    else [parse(h[..2])] + DecodePairs(h[2..], parse)
  }

  /** The bytes hexStringToUint8Array produces. */
  function DecodeHex(h: string): seq<byte> {
    DecodePairs(h, PairValue)
  }

  /** One step of the decoding loop: the pair slice(i, i + 2), then the rest of the string. */
  lemma DecodePairsStep(h: string, i: nat, parse: string -> byte)
    requires i < |h|
    ensures DecodePairs(h[i..], parse) == [parse(Slice(h, i, i + 2))] + DecodePairs(h[Min(i + 2, |h|)..], parse)
  {
    if |h| - i < 2 {
      assert Slice(h, i, i + 2) == h[i..];
      assert h[Min(i + 2, |h|)..] == [];
    } else {
      assert h[i..][..2] == Slice(h, i, i + 2);
      assert h[i..][2..] == h[i + 2..];
    }
  }

  /** Pushing the byte of pair i keeps "bytes so far, then the rest decoded" equal to the whole decoding. */
  lemma DecodePairsPush(h: string, i: nat, done: seq<byte>, parse: string -> byte)
    requires i < |h| && done + DecodePairs(h[i..], parse) == DecodePairs(h, parse)
    ensures (done + [parse(Slice(h, i, i + 2))]) + DecodePairs(h[Min(i + 2, |h|)..], parse) == DecodePairs(h, parse)
  {
    DecodePairsStep(h, i, parse);
    var b, rest := parse(Slice(h, i, i + 2)), DecodePairs(h[Min(i + 2, |h|)..], parse);
    assert (done + [b]) + rest == done + ([b] + rest);
  }

  /** Decoding splits at any even boundary: each pair lies on one side of it. */
  lemma {:induction false} DecodePairsAppend(x: string, y: string, parse: string -> byte)
    requires |x| % 2 == 0
    ensures DecodePairs(x + y, parse) == DecodePairs(x, parse) + DecodePairs(y, parse)
    decreases |x|
  {
    if x == [] {
      assert x + y == y;
    } else {
      assert (x + y)[..2] == x[..2];
      assert (x + y)[2..] == x[2..] + y;
      DecodePairsAppend(x[2..], y, parse);
    }
  }

  /** Byte k of the decoding comes from characters 2k and 2k + 1 (or the lone last one). */
  lemma DecodePairsAt(h: string, k: nat, parse: string -> byte)
    requires 2 * k < |h|
    ensures DecodePairs(h, parse)[k] == parse(h[2 * k..Min(2 * k + 2, |h|)])
  {
    var back := h[2 * k..];
    DecodePairsSkip(h, k, parse);
    DecodePairsHead(back, parse);
    assert back[..Min(2, |back|)] == h[2 * k..Min(2 * k + 2, |h|)];
  }

  /** Byte k is the first byte of the decoding of what follows the first 2k characters. */
  lemma {:induction false} DecodePairsSkip(h: string, k: nat, parse: string -> byte)
    requires 2 * k < |h|
    ensures DecodePairs(h, parse)[k] == DecodePairs(h[2 * k..], parse)[0]
    decreases k
  {
    if k == 0 {
      assert h[0..] == h;
    } else {
      var tail := h[2..];
      assert DecodePairs(h, parse)[k] == DecodePairs(tail, parse)[k - 1];
      DecodePairsSkip(tail, k - 1, parse);
      assert tail[2 * (k - 1)..] == h[2 * k..];
    }
  }

  /** The first byte comes from the first two characters, or the only one. */
  lemma DecodePairsHead(h: string, parse: string -> byte)
    requires h != []
    ensures DecodePairs(h, parse)[0] == parse(h[..Min(2, |h|)])
  {
    if |h| < 2 {
      assert h[..Min(2, |h|)] == h;
    }
  }

  /** hexStringToUint8Array, with the byte array grown by push as in the source. */
  method HexStringToUint8Array(hexString: string) returns (bytes: seq<byte>)
    ensures |bytes| == (|hexString| + 1) / 2
    ensures bytes == DecodeHex(hexString)
  {
    bytes := [];
    var i := 0;
    while i < |hexString|
      invariant 0 <= i <= |hexString| + 1
      invariant bytes + DecodeHex(hexString[Min(i, |hexString|)..]) == DecodeHex(hexString)
    {
      var b := PairValue(Slice(hexString, i, i + 2));
      DecodePairsPush(hexString, i, bytes, PairValue);
      bytes := bytes + [b];
      i := i + 2;
    }
    assert hexString[Min(i, |hexString|)..] == [];
  }

  /** A well-formed pair decodes to the byte its two digits spell. */
  lemma PairOfHexDigits(h: string, k: nat)
    requires 2 * k + 1 < |h| && IsHexDigit(h[2 * k]) && IsHexDigit(h[2 * k + 1])
    ensures DecodeHex(h)[k] == 16 * HexDigitValue(h[2 * k]) + HexDigitValue(h[2 * k + 1])
  {
    DecodePairsFull(h, k, PairValue);
    PairValueOfDigits(h[2 * k], h[2 * k + 1]);
  }

  /** Away from the end, byte k comes from the two characters 2k and 2k + 1. */
  lemma DecodePairsFull(h: string, k: nat, parse: string -> byte)
    requires 2 * k + 1 < |h|
    ensures DecodePairs(h, parse)[k] == parse([h[2 * k], h[2 * k + 1]])
  {
    DecodePairsAt(h, k, parse);
    assert h[2 * k..Min(2 * k + 2, |h|)] == [h[2 * k], h[2 * k + 1]];
  }

  /** In an odd-length string the last byte comes from the lone last character. */
  lemma DecodePairsLast(h: string, parse: string -> byte)
    requires |h| % 2 == 1
    ensures DecodePairs(h, parse)[|h| / 2] == parse([h[|h| - 1]])
  {
    var k := |h| / 2;
    DecodePairsAt(h, k, parse);
    assert h[2 * k..Min(2 * k + 2, |h|)] == [h[|h| - 1]];
  }

  /** Two hex digits are stored as the byte they spell. */
  lemma PairValueOfDigits(a: char, b: char)
    requires IsHexDigit(a) && IsHexDigit(b)
    ensures PairValue([a, b]) == 16 * HexDigitValue(a) + HexDigitValue(b)
  {
    ParseTwoHexDigits(a, b);
  }

  /** A lone hex digit is stored as its value. */
  lemma PairValueOfDigit(a: char)
    requires IsHexDigit(a)
    ensures PairValue([a]) == HexDigitValue(a)
  {
    ParseOneHexDigit(a);
  }

  /**
   * A pair that does not start a numeral (no hex digit, white space or sign in
   * front) parses to NaN, which the Uint8Array stores as 0: malformed input is
   * not rejected.
   */
  lemma NonNumericPairIsZero(a: char, b: char)
    requires !IsHexDigit(a) && !IsJsWhiteSpace(a) && a != '-' && a != '+'
    ensures PairValue([a, b]) == 0
  {
    assert TrimStart([a, b]) == [a, b];
    assert DropSign([a, b]) == [a, b];
    assert a == '0' ==> !IsHexDigit(a);
    assert HexDigitPrefix([a, b]) == [];
  }

  /** "0x" or "0X" is read by parseInt as a bare hex prefix with no digits: NaN, stored as 0. */
  lemma HexPrefixPairIsZero(c: char)
    requires c == 'x' || c == 'X'
    ensures PairValue(['0', c]) == 0
  {
    var p := ['0', c];
    assert TrimStart(p) == p;
    assert DropHexPrefix(DropSign(p)) == [];
  }

  /** Decoding an encoding gives back the bytes: what the verify path relies on. */
  lemma DecodeEncode(bs: seq<byte>)
    ensures DecodeHex(BytesToHex(bs)) == bs
  {
    var h := BytesToHex(bs);
    forall k | 0 <= k < |bs|
      ensures DecodeHex(h)[k] == bs[k]
    {
      BytesToHexAt(bs, k);
      PairOfHexDigits(h, k);
    }
  }

  /** The ASCII-lower-cased string. */
  function LowerCase(h: string): (r: string)
    ensures |r| == |h|
  {
    seq(|h|, i requires 0 <= i < |h| => ToLowerAscii(h[i]))
  }

  /** A byte spelled by two hex digits encodes back to those digits, lower-cased. */
  lemma EncodeSpelledByte(bs: seq<byte>, k: nat, a: char, b: char)
    requires k < |bs| && IsHexDigit(a) && IsHexDigit(b)
    requires bs[k] == 16 * HexDigitValue(a) + HexDigitValue(b)
    ensures BytesToHex(bs)[2 * k] == ToLowerAscii(a)
    ensures BytesToHex(bs)[2 * k + 1] == ToLowerAscii(b)
  {
    BytesToHexAt(bs, k);
    SpelledNibbles(bs[k], a, b);
  }

  /** The byte two hex digits spell renders as those digits, lower-cased. */
  lemma SpelledNibbles(x: byte, a: char, b: char)
    requires IsHexDigit(a) && IsHexDigit(b)
    requires x == 16 * HexDigitValue(a) + HexDigitValue(b)
    ensures HexChar(x / 16) == ToLowerAscii(a) && HexChar(x % 16) == ToLowerAscii(b)
  {
    Nibbles(HexDigitValue(a), HexDigitValue(b));
    HexCharOfValue(a);
    HexCharOfValue(b);
  }

  /** Pair k of the encoding of the bytes a hex string spells is pair k of the lower-cased string. */
  lemma EncodeSpelledAt(h: string, bs: seq<byte>, k: nat)
    requires Spells(h, bs) && k < |bs|
    ensures HighAt(BytesToHex(bs), k) == HighAt(LowerCase(h), k)
    ensures LowAt(BytesToHex(bs), k) == LowAt(LowerCase(h), k)
  {
    EncodeSpelledByte(bs, k, h[2 * k], h[2 * k + 1]);
  }

  /** The two nibbles of 16 * hi + lo. */
  lemma Nibbles(hi: nat, lo: nat)
    requires hi < 16 && lo < 16
    ensures (16 * hi + lo) / 16 == hi && (16 * hi + lo) % 16 == lo
  {
  }

  /** The first character of pair k. */
  ghost function HighAt<T>(s: seq<T>, k: nat): T
    requires 2 * k + 1 < |s|
  {
    s[2 * k]
  }

  /** The second character of pair k. */
  ghost function LowAt<T>(s: seq<T>, k: nat): T
    requires 2 * k + 1 < |s|
  {
    s[2 * k + 1]
  }

  /** Two even-length sequences that agree pair by pair are equal. */
  lemma PairwiseEqual<T>(r: seq<T>, l: seq<T>)
    requires |r| == |l| && |r| % 2 == 0
    requires forall k :: 0 <= k < |r| / 2 ==> HighAt(r, k) == HighAt(l, k) && LowAt(r, k) == LowAt(l, k)
    ensures r == l
  {
    forall i | 0 <= i < |r|
      ensures r[i] == l[i]
    {
      var k := i / 2;
      assert HighAt(r, k) == HighAt(l, k) && LowAt(r, k) == LowAt(l, k);
    }
  }

  /** The bytes a hex string spells, pair by pair, high digit first. */
  ghost predicate Spells(h: string, bs: seq<byte>) {
    && |h| == 2 * |bs|
    && IsHexString(h)
    && forall k :: 0 <= k < |bs| ==> bs[k] == 16 * HexDigitValue(h[2 * k]) + HexDigitValue(h[2 * k + 1])
  }

  lemma EncodeSpelledPairs(h: string, bs: seq<byte>)
    requires Spells(h, bs)
    ensures forall k :: 0 <= k < |bs| ==>
      && HighAt(BytesToHex(bs), k) == HighAt(LowerCase(h), k)
      && LowAt(BytesToHex(bs), k) == LowAt(LowerCase(h), k)
  {
    forall k | 0 <= k < |bs|
      ensures HighAt(BytesToHex(bs), k) == HighAt(LowerCase(h), k)
      ensures LowAt(BytesToHex(bs), k) == LowAt(LowerCase(h), k)
    {
      EncodeSpelledAt(h, bs, k);
    }
  }

  /** Bytes spelled pair by pair by a hex string encode back to that string, lower-cased. */
  lemma EncodeSpelledBytes(h: string, bs: seq<byte>)
    requires Spells(h, bs)
    ensures BytesToHex(bs) == LowerCase(h)
  {
    EncodeSpelledPairs(h, bs);
    PairwiseEqual(BytesToHex(bs), LowerCase(h));
  }

  /** An even-length hex string spells the bytes it decodes to. */
  lemma DecodeSpells(h: string)
    requires |h| % 2 == 0 && IsHexString(h)
    ensures Spells(h, DecodeHex(h))
  {
    var bs := DecodeHex(h);
    forall k | 0 <= k < |bs|
      ensures bs[k] == 16 * HexDigitValue(h[2 * k]) + HexDigitValue(h[2 * k + 1])
    {
      PairOfHexDigits(h, k);
    }
  }

  /** Decoding an even-length hex string and encoding again gives it back in lowercase. */
  lemma EncodeDecode(h: string)
    requires |h| % 2 == 0 && IsHexString(h)
    ensures BytesToHex(DecodeHex(h)) == LowerCase(h)
  {
    DecodeSpells(h);
    EncodeSpelledBytes(h, DecodeHex(h));
  }

  /** An odd-length hex string decodes its last lone digit as a byte of its own. */
  lemma DecodeOddTail(h: string)
    requires |h| % 2 == 1 && IsHexString(h)
    ensures DecodeHex(h)[|h| / 2] == HexDigitValue(h[|h| - 1])
  {
    DecodePairsLast(h, PairValue);
    PairValueOfDigit(h[|h| - 1]);
  }

  /** Decoding splits at any even boundary. */
  lemma DecodeHexAppend(x: string, y: string)
    requires |x| % 2 == 0
    ensures DecodeHex(x + y) == DecodeHex(x) + DecodeHex(y)
  {
    DecodePairsAppend(x, y, PairValue);
  }

  /** A SHA-256 digest (32 bytes) renders as 64 lowercase hex digits. */
  lemma DigestHexShape(digest: seq<byte>)
    requires |digest| == 32
    ensures |BytesToHex(digest)| == 64
    ensures IsHexString(BytesToHex(digest))
    ensures LowerCase(BytesToHex(digest)) == BytesToHex(digest)
  {
    BytesToHexIsLowerHex(digest);
    var h := BytesToHex(digest);
    forall i | 0 <= i < |h|
      ensures LowerCase(h)[i] == h[i]
    {
    }
  }
}
