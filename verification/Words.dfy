/** Unsigned 32-bit words: exclusive or bit by bit, and products that wrap. */
module Words {
  const WORD := 0x1_0000_0000

  type Word = w: nat | w < WORD

  function Pow2(n: nat): nat {
    if n == 0 then 1 else 2 * Pow2(n - 1)
  }

  /** Bitwise exclusive or of the lowest `bits` bits. */
  function Xor(a: nat, b: nat, bits: nat): nat {
    if bits == 0 then 0
    else (if a % 2 == b % 2 then 0 else 1) + 2 * Xor(a / 2, b / 2, bits - 1)
  }

  lemma {:induction false} XorFits(a: nat, b: nat, bits: nat)
    ensures Xor(a, b, bits) < Pow2(bits)
  {
    if bits > 0 {
      XorFits(a / 2, b / 2, bits - 1);
    }
  }

  lemma {:induction false} XorCancels(key: nat, a: nat, b: nat, bits: nat)
    requires a < Pow2(bits) && b < Pow2(bits) && Xor(key, a, bits) == Xor(key, b, bits)
    ensures a == b
  {
    if bits > 0 {
      XorCancels(key / 2, a / 2, b / 2, bits - 1);
    }
  }

  /** A multiple of 2^32 strictly between -2^32 and 2^32 is zero. */
  lemma OnlyZeroIsAMultiple(d: int, q: int)
    requires -WORD < d < WORD && d == WORD * q
    ensures d == 0
  {
  }

  lemma {:induction false} XorCommutes(a: nat, b: nat, bits: nat)
    ensures Xor(a, b, bits) == Xor(b, a, bits)
  {
    if bits > 0 {
      XorCommutes(a / 2, b / 2, bits - 1);
    }
  }

  lemma WordsHave32Bits()
    ensures Pow2(32) == WORD
  {
    assert Pow2(8) == 256 && Pow2(16) == 0x1_0000 && Pow2(24) == 0x100_0000;
  }
}
