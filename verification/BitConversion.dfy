/** Conversions between integers and bit vectors lose nothing. */
module BitConversion {

  lemma ByteRoundTrip(a: int)
    requires 0 <= a < 256
    ensures (a as bv8) as int == a
  {
  }

  lemma WordRoundTrip(a: bv32)
    ensures (a as int) as bv32 == a
  {
  }
}
