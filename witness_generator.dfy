/**
 * The initial witness of generateWitness: the ordered input tokens bound to
 * witness indices 1..n (index 0 is the constant-one wire and stays unbound),
 * before the circuit is executed by the external ACVM.
 */
module WitnessGenerator {

  /** Builds the Map<number, string> with one set(index + 1, value) per input, in order. */
  method InitialWitness(input: seq<string>) returns (initialWitness: map<int, string>)
    ensures forall k :: k in initialWitness <==> 1 <= k <= |input|
    ensures forall k :: 1 <= k <= |input| ==> initialWitness[k] == input[k - 1]
    ensures 0 !in initialWitness
  {
    initialWitness := map[];
    for index := 0 to |input|
      invariant forall k :: k in initialWitness <==> 1 <= k <= index
      invariant forall k :: 1 <= k <= index ==> initialWitness[k] == input[k - 1]
    {
      initialWitness := initialWitness[index + 1 := input[index]];
    }
  }
}
