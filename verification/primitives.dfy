/** The .NET value types the service works with. */
module Primitives {

  /** `System.Guid`: 128 bits, of which the all-zero value is `Guid.Empty`. */
  newtype Guid = x: int | 0 <= x < 0x1_0000_0000_0000_0000_0000_0000_0000_0000

  const EmptyGuid: Guid := 0

  /** A `DateTime` reading taken from the clock, in ticks. The model never
      does arithmetic on it; it only copies and compares readings. */
  type Instant = nat

  /** A `double?` coordinate, carried as its 64-bit pattern: the source only
      copies latitudes and longitudes, it never computes with them. */
  type Coordinate = bv64
}
