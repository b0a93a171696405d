/** Conversions between octets and the numbers they denote. */
module Bytes {

  lemma Successor(x: bv8)
    requires x != 0xFF
    ensures (x + 1) as int == x as int + 1
  {
  }

  /** The octet holding a number below 256, counted up from zero so that
      no integer-to-bit-vector cast is needed. */
  function ToByte(v: nat): (b: bv8)
    requires v < 256
    ensures b as int == v
  {
    if v == 0 then 0
    else
      var x := ToByte(v - 1);
      Successor(x);
      x + 1
  }

  lemma ValueInjective(x: bv8, y: bv8)
    requires x as int == y as int
    ensures x == y
  {
  }

  lemma ByteOfValue(b: bv8)
    ensures ToByte(b as int) == b
  {
    ValueInjective(ToByte(b as int), b);
  }

}
