/** Powers of a natural number, for number systems and for retry delays. */
module Powers {
  function Power(base: nat, exponent: nat): nat {
    if exponent == 0 then 1 else base * Power(base, exponent - 1)
  }
}
