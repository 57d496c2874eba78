/** Bytes and the numbers they stand for. */
module Octets {
  function Val(b: bv8): (r: nat)
    ensures r < 256
  {
    b as nat
  }

  /** The byte reached by counting up from zero, which wraps around as the conversion in C does. */
  function ByteOf(n: nat): bv8 {
    if n == 0 then 0 else ByteOf(n - 1) + 1
  }

  lemma Succ(b: bv8)
    requires b != 255
    ensures Val(b + 1) == Val(b) + 1
  {}

  lemma Pred(b: bv8)
    requires b != 0
    ensures b - 1 != 255 && b - 1 + 1 == b
  {}

  lemma Ends()
    ensures Val(0) == 0 && Val(255) == 255
  {}

  lemma {:induction false} ValByte(n: nat)
    requires n < 256
    ensures Val(ByteOf(n)) == n
  {
    hide Val;
    Ends();
    if n != 0 {
      ValByte(n - 1);
      Succ(ByteOf(n - 1));
    }
  }

  lemma {:induction false} ByteVal(b: bv8)
    ensures ByteOf(Val(b)) == b
  {
    hide Val;
    Ends();
    if b != 0 {
      Pred(b);
      Succ(b - 1);
      ByteVal(b - 1);
    }
  }
}
