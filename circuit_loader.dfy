/**
 * The data shaping in initCircuit: copying the base64-decoded circuit program
 * into a byte buffer, and sizing the proving setup from the circuit's total
 * size (the subgroup size, the number of reference-string points, the slab
 * allocator and the composer).
 */
module CircuitLoader {
  import opened JsSemantics

  // ---------------------------------------------------------------------------
  // base64ToUint8Array, from the binary string atob returns

  /**
   * Fills a fresh Uint8Array of the binary string's length with the string's
   * character codes, each stored modulo 256 as a Uint8Array does.
   */
  method Base64ToUint8Array(binaryString: string) returns (uint8Array: array<byte>)
    ensures fresh(uint8Array)
    ensures uint8Array.Length == |binaryString|
    ensures forall i :: 0 <= i < |binaryString| ==> uint8Array[i] == ToUint8(Num(binaryString[i] as int))
  {
    var length := |binaryString|;
    uint8Array := new byte[length];
    for i := 0 to length
      invariant forall j :: 0 <= j < i ==> uint8Array[j] == ToUint8(Num(binaryString[j] as int))
    {
      uint8Array[i] := ToUint8(Num(binaryString[i] as int));
    }
  }

  /** A binary string: every character code fits in a byte, as in atob's output. */
  predicate IsBinaryString(s: string) {
    forall i :: 0 <= i < |s| ==> s[i] as int < 256
  }

  /** On a binary string the copy keeps every character code exactly. */
  lemma BinaryStringCodesAreBytes(s: string, i: nat)
    requires IsBinaryString(s) && i < |s|
    ensures ToUint8(Num(s[i] as int)) == s[i] as int
  {
  }

  // ---------------------------------------------------------------------------
  // Subgroup sizing: Math.pow(2, Math.ceil(Math.log2(total)))

  function Pow2(k: nat): (p: nat)
    ensures p >= 1
  {
    if k == 0 then 1 else 2 * Pow2(k - 1)
  }

  /** n is 2^k for some k. */
  predicate IsPowerOfTwo(n: nat)
    decreases n
  {
    n == 1 || (n >= 2 && n % 2 == 0 && IsPowerOfTwo(n / 2))
  }

  lemma {:induction false} Pow2IsPowerOfTwo(k: nat)
    ensures IsPowerOfTwo(Pow2(k))
  {
    if k > 0 {
      Pow2IsPowerOfTwo(k - 1);
      assert Pow2(k) / 2 == Pow2(k - 1);
    }
  }

  lemma {:induction false} Pow2Monotonic(i: nat, j: nat)
    requires i <= j
    ensures Pow2(i) <= Pow2(j)
    decreases j
  {
    if i < j {
      Pow2Monotonic(i, j - 1);
    }
  }

  /** ceil(log2(n)) on positive integers: the least k with n <= 2^k. */
  function CeilLog2(n: nat): (k: nat)
    requires n >= 1
    ensures n <= Pow2(k)
    ensures k == 0 || Pow2(k - 1) < n
    decreases n
  {
    if n == 1 then 0 else 1 + CeilLog2((n + 1) / 2)
  }

  /**
   * The subgroup size for a circuit of `total` gates. For total == 0 the
   * source computes Math.pow(2, Math.ceil(-Infinity)) = 0.
   */
  function SubgroupSize(total: nat): (s: nat)
    ensures total == 0 ==> s == 0
    ensures total >= 1 ==> IsPowerOfTwo(s) && total <= s < 2 * total
  {
    if total == 0 then 0
    else
      var k := CeilLog2(total);
      Pow2IsPowerOfTwo(k);
      Pow2(k)
  }

  /** No smaller power of two holds the circuit: the subgroup size is the least one. */
  lemma SubgroupSizeIsLeast(total: nat, k: nat)
    requires 1 <= total <= Pow2(k)
    ensures SubgroupSize(total) <= Pow2(k)
  {
    var c := CeilLog2(total);
    if k < c {
      Pow2Monotonic(k, c - 1);
      assert false;
    } else {
      Pow2Monotonic(c, k);
    }
  }

  /** What initCircuit sets up from the subgroup size. */
  datatype Provisioning = Provisioning(
    subgroupSize: nat,   // passed to acirNewAcirComposer
    crsPoints: nat,      // points requested from Crs.new
    slabSize: nat)       // passed to commonInitSlabAllocator

  /** The setup sizes derived from the circuit's total size. */
  function ProvisionFor(total: nat): (p: Provisioning)
    ensures total >= 1 ==> total < p.crsPoints <= 2 * total
    ensures p.subgroupSize == SubgroupSize(total)
    ensures total >= 1 ==> IsPowerOfTwo(p.slabSize)
    ensures p.slabSize == p.subgroupSize
    ensures p.crsPoints == p.subgroupSize + 1
  {
    var subgroupSize := SubgroupSize(total);
    Provisioning(subgroupSize, subgroupSize + 1, subgroupSize)
  }
}
