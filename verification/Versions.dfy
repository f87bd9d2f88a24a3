/** std_radix_version_t: 64-bit counters that wrap to zero. */
module Versions {
  const VERSIONS: nat := 0x1_0000_0000_0000_0000
  type Version = v: nat | v < VERSIONS
}
