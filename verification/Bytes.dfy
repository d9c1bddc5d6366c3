/** Numbers below 256 as bytes. */
module Bytes {
  lemma ByteRoundTrip(x: nat)
    requires x < 0x100
    ensures (x as bv8) as nat == x
  {}
}
