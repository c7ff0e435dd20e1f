/** The words the probes write and look for. */
module Markers {
  import opened Bytes

  /** base + (UINT32)i */
  function Marker(base: u32, i: nat): u32 {
    (base + i) % TWO_32
  }
}
