/** What every other module may need. */
module Basics {

  datatype Option<T> = None | Some(value: T)

  function Min(a: nat, b: nat): nat {
    if a < b then a else b
  }

  function Max(a: nat, b: nat): nat {
    if a < b then b else a
  }

  const U32_MAX: nat := 0xFFFF_FFFF

  /** Saturation to 32 bits. */
  function ClampU32(v: nat): nat {
    if v > U32_MAX then U32_MAX else v
  }
}
