# Zero-knowledge hash-preimage demo: data shaping, modelled in Dafny

The application proves, in the browser, knowledge of two strings whose SHA-256
digests feed a Noir circuit, and later verifies the proof. Around the calls into
the proving backend and the circuit runtime, `src/zkcircuits.ts` and `src/App.tsx`
shape the data that passes between them:

- the compressed circuit program is copied byte by byte from the binary string
  that `atob` returns (`base64ToUint8Array`);
- the circuit's total size fixes the subgroup size, the number of
  reference-string points, the slab allocator size and the composer size;
- SHA-256 digests and proofs are rendered as lowercase hex, two digits per byte
  (Base16 as in section 8 of RFC 4648, lowercase alphabet);
- digests become fixed-width circuit input tokens with an optional `0x` marker
  (`padHexString`);
- the input tokens are bound to witness indices 1..n (`generateWitness`);
- the hex proof loses its leading public-input hex, 64 characters per input
  (`cleanProofFromPublicData`);
- the verify path joins the public input's hex back in front and decodes the
  whole string two characters at a time with `parseInt(…, 16)`
  (`hexStringToUint8Array`).

The model states the JavaScript built-ins these rely on on integers and
`seq<char>` (module `JsSemantics`):
- `parseInt` with radix 16: leading white space, a sign, a `0x` prefix, the
  longest run of digits, and NaN when there are none;
- the ToUint8 conversion of a `Uint8Array` store: NaN gives 0, other values are
  taken modulo 256;
- `toString(16)`, `padStart`, `repeat` and `slice`, including a negative start.

With that semantics the decoder is modelled as the code is written, for strings
without characters above U+FFFF (see "Left out"). It does not reject malformed
input: a pair that is not a numeral becomes 0, and a lone trailing digit becomes
a byte of its own. Three behaviours a caller may not expect are modelled as the
code has them:
- a proof shorter than the public-input hex is stripped to the empty string,
  not rejected;
- a total circuit size of 0 gives a subgroup size of 0, as
  `Math.pow(2, Math.ceil(Math.log2(0)))` does, not a failure;
- `padHexString` never truncates a string that is too long.

Modules:
- `JsSemantics`: the built-ins.
- `HexCodec`: the hex encoding and decoding, with the round trips.
- `FieldElement`: `padHexString`.
- `ProofCanonicalizer`: stripping and rejoining proofs.
- `CircuitLoader`: the byte copy and the subgroup sizing.
- `WitnessGenerator`: the initial witness map.

## Model

| member | source | states |
|---|---|---|
| JsSemantics.ToUint8 | src/zkcircuits.ts:125 | An in-range number is stored unchanged and NaN is stored as 0, as a `Uint8Array` built from the pushed values does |
| JsSemantics.ParseTwoHexDigits | src/zkcircuits.ts:122 | `parseInt` with radix 16 reads two hex digits, in either case, as 16 × high + low |
| JsSemantics.ParseOneHexDigit | src/zkcircuits.ts:122 | `parseInt` with radix 16 reads a lone hex digit as its value |
| HexCodec.ByteToHex | src/zkcircuits.ts:27 | `toString(16).padStart(2, '0')` of a byte is exactly two lowercase digits, the high nibble first: the padding adds the leading zero for bytes below 16 |
| HexCodec.BytesToHex | src/zkcircuits.ts:100-102 | The mapped and joined rendering has two characters per byte |
| HexCodec.BytesToHexAt | src/zkcircuits.ts:100-102 | Byte k occupies characters 2k (high nibble) and 2k+1 (low nibble) of the rendering |
| HexCodec.BytesToHexIsLowerHex | src/zkcircuits.ts:100-102 | Every character of a rendered buffer is a lowercase hex digit |
| HexCodec.BytesToHexAppend | src/zkcircuits.ts:100-102 | Rendering a concatenation gives the concatenation of the renderings |
| HexCodec.DecodePairs | src/zkcircuits.ts:118-126 | Reading two characters at a time with a final lone character gives ceil(n/2) bytes |
| HexCodec.DecodePairsAt | src/zkcircuits.ts:121-122 | Byte k of the result comes from `slice(2k, 2k+2)` |
| HexCodec.HexStringToUint8Array | src/zkcircuits.ts:118-126 | The loop with `i += 2` and `push` produces ceil(n/2) bytes, exactly the pairwise decoding `DecodeHex` of the whole string |
| HexCodec.PairOfHexDigits | src/zkcircuits.ts:122 | A pair of hex digits at position 2k decodes to the byte they spell |
| HexCodec.NonNumericPairIsZero | src/zkcircuits.ts:122-125 | A pair that does not start a numeral parses to NaN and is stored as 0: malformed input is not rejected |
| HexCodec.HexPrefixPairIsZero | src/zkcircuits.ts:122-125 | The pair "0x" or "0X" is a hex prefix with no digits, so it parses to NaN and is stored as 0 |
| HexCodec.DecodeEncode | src/zkcircuits.ts:100-126 | Decoding the hex rendering of any byte buffer gives the buffer back |
| HexCodec.EncodeDecode | src/zkcircuits.ts:100-126 | An even-length hex string in either case, decoded and rendered again, comes back lower-cased |
| HexCodec.EncodeSpelledBytes | src/zkcircuits.ts:100-102 | Bytes spelled pair by pair by a hex string render back to that string, lower-cased |
| HexCodec.DecodeSpells | src/zkcircuits.ts:118-126 | An even-length hex string decodes to the bytes its pairs spell |
| HexCodec.DecodeOddTail | src/zkcircuits.ts:121-122 | In an odd-length hex string the last lone digit becomes a byte of its own, equal to the digit's value |
| HexCodec.DecodeHexAppend | src/zkcircuits.ts:118-126 | Decoding splits at any even boundary: decode(x + y) = decode(x) + decode(y) when the length of x is even |
| HexCodec.DigestHexShape | src/zkcircuits.ts:25-28 | A 32-byte SHA-256 digest renders as 64 hex digits, all lowercase |
| FieldElement.PadHexString | src/zkcircuits.ts:57-66 | The result is the marker ("0x" or nothing), then '0's, then the whole input; its length after the marker is max(input length, 2 × lengthInBytes) |
| FieldElement.PadKeepsLongInput | src/zkcircuits.ts:59-61 | An input already 2 × lengthInBytes long or longer is kept whole, never truncated, and only the marker is added |
| FieldElement.PadShortInput | src/zkcircuits.ts:63-65 | A short input is zero-filled in front to exactly 2 × lengthInBytes characters |
| FieldElement.MarkedIsHexIdPlusUnmarked | src/zkcircuits.ts:60-65 | The marked token is "0x" followed by the unmarked token, on both branches |
| FieldElement.Bytes32TokenShape | src/App.tsx:46-47 | A 32-byte token for at most 64 hex characters is 66 characters long and starts with "0x" |
| FieldElement.DigestToken | src/App.tsx:41-47 | The token built from a digest is "0x" followed by the digest's 64 hex digits, with no padding |
| ProofCanonicalizer.CleanProofFromPublicData | src/zkcircuits.ts:113-116 | The result is the proof after its first numberOfInputs × 64 characters, and empty when the proof is shorter; it is never longer than the proof |
| ProofCanonicalizer.VerificationInput | src/App.tsx:76-79 | The joined string is the public input's hex followed by the cleaned proof, and splits back into those two |
| ProofCanonicalizer.StripThenPrefixRestores | src/App.tsx:76-79 | Joining the stripped characters back in front of the cleaned proof restores the proof hex |
| ProofCanonicalizer.CleanEncodedProof | src/zkcircuits.ts:113-116 | Cleaning a rendered proof gives the rendering of the bytes after the public inputs, and the part removed is the rendering of the public inputs |
| ProofCanonicalizer.VerifyPathRecoversRawProof | src/App.tsx:76-82 | Rejoining the public inputs' hex to the cleaned proof and decoding gives the prover's raw proof bytes |
| ProofCanonicalizer.VerifyPathWithTypedDigest | src/App.tsx:76-82 | With one public input given as any 64 hex digits, in either case, that spell the proof's first 32 bytes, the verify path decodes to the raw proof |
| CircuitLoader.Base64ToUint8Array | src/zkcircuits.ts:10-20 | A fresh array as long as the binary string whose element i is character code i stored modulo 256 |
| CircuitLoader.BinaryStringCodesAreBytes | src/zkcircuits.ts:15-17 | On a binary string, as `atob` returns, each character code is copied exactly |
| CircuitLoader.CeilLog2 | src/zkcircuits.ts:40 | ceil(log2 n) is the least k with n ≤ 2^k |
| CircuitLoader.SubgroupSize | src/zkcircuits.ts:40 | For total ≥ 1 the subgroup size is a power of two with total ≤ size < 2 × total; for total 0 it is 0 |
| CircuitLoader.SubgroupSizeIsLeast | src/zkcircuits.ts:40 | No smaller power of two holds the circuit: the subgroup size is at most every power of two that is at least total |
| CircuitLoader.ProvisionFor | src/zkcircuits.ts:40-51 | The composer gets the subgroup size of the circuit's total; the reference string has subgroup size + 1 points, so between total + 1 and 2 × total; the slab allocator gets the subgroup size too, a power of two (all tied together for total 0 as well) |
| WitnessGenerator.InitialWitness | src/zkcircuits.ts:69-73 | The map binds exactly the indices 1..n, index i to input i−1 in order, and leaves index 0 unbound |

## Left out

- Async structure, `console.log` and the React user interface of `src/App.tsx` are not modelled; the App's calls appear only as the compositions the lemmas state.
- SHA-256 and `TextEncoder` in `stringToDigest` are external: the model starts from the 32-byte digest.
- `atob` is external: `Base64ToUint8Array` starts from the binary string `atob` returns.
- `decompressSync` from fflate is external and not modelled.
- The proving backend is external and not modelled: `acirGetCircuitSizes`, `Crs.new`, `srsInitSrs`, `acirNewAcirComposer`, `acirCreateProof`, `acirInitProvingKey` and `acirVerifyProof` (all of `verifyProof`).
- The circuit runtime is external and not modelled: `initACVM`, `executeCircuit` with its oracle callback, and `compressWitness`. Only the initial witness map is modelled.
- CircuitLoader.SubgroupSize: `Math.log2`, `Math.ceil` and `Math.pow` are floating point; the model uses the exact integer ceil(log2). Rounding in `Math.log2` is not captured: above 2^49 (for instance total = 2^49 + 1, whose log2 rounds to exactly 49) the source can return a size below `total`, which the model does not.
- HexCodec.HexStringToUint8Array: returns the bytes as a sequence. The final copy into a `Uint8Array` is the ToUint8 of each pushed value and is part of `DecodeHex`.
- CircuitLoader.Base64ToUint8Array: JavaScript strings are UTF-16 code units and Dafny strings are Unicode scalar values. The two agree on `atob` output, where every code is below 256; characters above U+FFFF, which `charCodeAt` would split into surrogates, are not modelled.
- FieldElement.PadHexString: `lengthInBytes` is an integer. Fractional JavaScript numbers are not modelled.
- FieldElement.PadHexString: `hexString.length` counts UTF-16 code units in JavaScript and Unicode scalar values here; for a string with characters above U+FFFF the model pads by more than the source (each such character counts once, not twice).
- HexCodec.HexStringToUint8Array: `.length` and `slice(i, i + 2)` count UTF-16 code units in JavaScript and Unicode scalar values here; for a string with characters above U+FFFF the source splits surrogate pairs across byte pairs and yields different bytes (for "a" followed by U+1F600 the source gives two bytes, the model one). The app only meets such strings in a digest typed by the user.
- ProofCanonicalizer.CleanProofFromPublicData: `slice` counts UTF-16 code units in JavaScript and Unicode scalar values here, so on a proof string with characters above U+FFFF the cut falls at a different place; rendered proofs never contain such characters.
- ProofCanonicalizer.CleanProofFromPublicData: `numberOfInputs` is an integer. Fractional JavaScript numbers, which `slice` would truncate, are not modelled.
- JsSemantics.ParseTwoHexDigits: `parseInt` is modelled for radix 16 only, the only radix the code uses. Its result is an exact integer, so the precision loss of numerals longer than 13 digits is not captured; the decoder reads at most two characters, so this never applies to it.
