/** Bytes as numbers and as eight bits. */
module Bytes {
  type byte = b: int | 0 <= b < 256

  function Octet(x: bv8): byte { x as int }

  lemma OctetRoundTrip(x: bv8)
    ensures Octet(x) as bv8 == x
  {
  }

  lemma OctetOf(b: byte)
    ensures Octet(b as bv8) == b
  {
    var x := OctetFor(b);
    OctetRoundTrip(x);
  }

  /** Every byte is the value of some octet, counting up from 0. */
  lemma {:induction false} OctetFor(b: byte) returns (x: bv8)
    ensures Octet(x) == b
    decreases b
  {
    if b == 0 {
      x := 0;
    } else {
      x := OctetFor(b - 1);
      NextOctet(x);
      x := x + 1;
    }
  }

  lemma NextOctet(x: bv8)
    requires Octet(x) < 255
    ensures Octet(x + 1) == Octet(x) + 1
  {
  }
}
