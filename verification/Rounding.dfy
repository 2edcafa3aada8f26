/** szdiv_ceil and uptrdiv_ceil of libfreec/include/freec/stdlib.h, and rounding to pages of 4096 bytes. */
module Rounding {
  function DivCeil(x: nat, y: nat): nat
    requires y > 0
  {
    x / y + if x % y != 0 then 1 else 0
  }

  function PageFloor(x: nat): nat
  {
    x / 4096 * 4096
  }

  function PageCeil(x: nat): nat
  {
    DivCeil(x, 4096) * 4096
  }
}
