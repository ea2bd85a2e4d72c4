/** Numbers as they are written. */
module Numerals {
  function Decimal(n: nat): (r: string)
    ensures r != [] && forall i :: 0 <= i < |r| ==> '0' <= r[i] <= '9'
  {
    if n < 10 then ['0' + n as char] else Decimal(n / 10) + Decimal(n % 10)
  }
}
