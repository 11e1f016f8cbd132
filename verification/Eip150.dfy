/** vm/gas.go: the gas handed to a called frame. */
module Eip150 {
  import opened Uint

  /** callGas: the subtraction of the base cost wraps; None is ErrGasUintOverflow.

      EIP-150: charging base plus the child's gas succeeds exactly when the base cost can be paid, and then
      the child gets what was asked for, capped at all but one 64th of the rest.  So the wrap never shows.
      Before EIP-150 a request is granted as a whole or refused. */
  function CallGas(isEip150: bool, availableGas: U64, base: U64, callCost: Word): (r: Option<U64>)
    ensures isEip150 ==> r.Some?
    ensures isEip150 ==> (base + r.value <= availableGas <==> base <= availableGas)
    ensures isEip150 && base <= availableGas ==>
      var rest := availableGas - base;
      r.value == if callCost < rest - rest / 64 then callCost else rest - rest / 64
    ensures !isEip150 ==> (r == None <==> callCost >= TWO_64) && (r.Some? ==> r.value == callCost)
  {
    if isEip150 then
      var available := WrapSub(availableGas, base);
      var gas := available - available / 64;
      if callCost >= TWO_64 || gas < callCost then Some(gas) else Some(callCost)
    else if callCost >= TWO_64 then None
    else Some(callCost)
  }

  /** The cold-access wrapper adds its charge to base plus child without a check.  As long as the base cost
      is no more than a 64th of uint64 away from fitting, which the memory-fee bound gives, the sum fits. */
  lemma ColdChargeFits(availableGas: U64, base: U64, callCost: Word, cold: U64)
    requires base <= 0x100_0000_0000_0000 && cold <= 10_000 && availableGas + cold < TWO_64
    requires base + CallGas(true, availableGas, base, callCost).value < TWO_64
    ensures base + CallGas(true, availableGas, base, callCost).value + cold < TWO_64
  {
  }
}
