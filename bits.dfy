/**
 * Bitwise exclusive-or on natural numbers, the `^` operator that the engine
 * applies to heap sizes, together with the algebra and the bit-level facts
 * that the theory of Nim rests on.
 */
module Bits {

  /** Bitwise exclusive-or of two naturals, one binary digit at a time. */
  function Xor(a: nat, b: nat): nat
    decreases a + b
  {
    if a == 0 && b == 0 then 0 else 2 * Xor(a / 2, b / 2) + (a + b) % 2
  }

  /** Binary digit `k` of `n` (0 or 1). */
  function Bit(n: nat, k: nat): (b: nat)
    ensures b <= 1
  {
    if k == 0 then n % 2 else Bit(n / 2, k - 1)
  }

  /** Position of the most significant set bit of a positive number. */
  function HighBit(n: nat): nat
    requires n > 0
  {
    if n == 1 then 0 else 1 + HighBit(n / 2)
  }

  /** The recursion of `Xor` holds also when both arguments are zero. */
  lemma XorStep(a: nat, b: nat)
    ensures Xor(a, b) == 2 * Xor(a / 2, b / 2) + (a + b) % 2
    ensures Xor(a, b) / 2 == Xor(a / 2, b / 2)
    ensures Xor(a, b) % 2 == (a + b) % 2
  {
  }

  lemma BitOfZero(k: nat)
    ensures Bit(0, k) == 0
  {
  }

  /** `Xor` is what `^` means: each bit of the result is the parity of the two input bits. */
  lemma {:induction false} XorBit(a: nat, b: nat, k: nat)
    ensures Bit(Xor(a, b), k) == (Bit(a, k) + Bit(b, k)) % 2
  {
    XorStep(a, b);
    if k == 0 {
      ParitySum(a, b);
    } else {
      calc {
        Bit(Xor(a, b), k);
        Bit(Xor(a, b) / 2, k - 1);
        Bit(Xor(a / 2, b / 2), k - 1);
        { XorBit(a / 2, b / 2, k - 1); }
        (Bit(a / 2, k - 1) + Bit(b / 2, k - 1)) % 2;
        (Bit(a, k) + Bit(b, k)) % 2;
      }
    }
  }

  lemma ParitySum(a: nat, b: nat)
    ensures (a % 2 + b % 2) % 2 == (a + b) % 2
  {
  }

  lemma {:induction false} XorZero(a: nat)
    ensures Xor(a, 0) == a && Xor(0, a) == a
    decreases a
  {
    if a > 0 {
      XorZero(a / 2);
    }
  }

  lemma {:induction false} XorSelf(a: nat)
    ensures Xor(a, a) == 0
    decreases a
  {
    if a > 0 {
      XorSelf(a / 2);
    }
  }

  lemma {:induction false} XorComm(a: nat, b: nat)
    ensures Xor(a, b) == Xor(b, a)
    decreases a + b
  {
    if a != 0 || b != 0 {
      XorComm(a / 2, b / 2);
    }
  }

  lemma {:induction false} XorAssoc(a: nat, b: nat, c: nat)
    ensures Xor(Xor(a, b), c) == Xor(a, Xor(b, c))
    decreases a + b + c
  {
    if a + b + c > 0 {
      var ab, bc := Xor(a, b), Xor(b, c);
      XorStep(a, b);
      XorStep(b, c);
      calc {
        Xor(ab, c);
        { XorStep(ab, c); }
        2 * Xor(ab / 2, c / 2) + (ab + c) % 2;
        { XorAssoc(a / 2, b / 2, c / 2); }
        2 * Xor(a / 2, bc / 2) + (ab + c) % 2;
        { ParityAssoc(a, b, c, ab, bc); }
        2 * Xor(a / 2, bc / 2) + (a + bc) % 2;
        { XorStep(a, bc); }
        Xor(a, bc);
      }
    } else {
      XorZero(0);
    }
  }

  lemma ParityAssoc(a: nat, b: nat, c: nat, ab: nat, bc: nat)
    requires ab % 2 == (a + b) % 2 && bc % 2 == (b + c) % 2
    ensures (ab + c) % 2 == (a + bc) % 2
  {
  }

  /** Exchanging the last two operands of a chain of exclusive-ors. */
  lemma XorSwap(a: nat, b: nat, c: nat)
    ensures Xor(Xor(a, b), c) == Xor(Xor(a, c), b)
  {
    XorAssoc(a, b, c);
    XorComm(b, c);
    XorAssoc(a, c, b);
  }

  /** Exclusive-or with the same value twice cancels out. */
  lemma {:induction false} XorCancel(a: nat, b: nat)
    ensures Xor(Xor(a, b), b) == a
  {
    XorAssoc(a, b, b);
    XorSelf(b);
    XorZero(a);
  }

  /** Two numbers whose exclusive-or is zero are equal. */
  lemma {:induction false} XorZeroMeansEqual(a: nat, b: nat)
    requires Xor(a, b) == 0
    ensures a == b
  {
    XorCancel(a, b);
    XorZero(b);
  }

  /** Exclusive-or with a non-zero number always changes the value. */
  lemma {:induction false} XorChanges(a: nat, b: nat)
    requires b != 0
    ensures Xor(a, b) != a
    decreases b
  {
    var x := Xor(a, b);
    XorStep(a, b);
    if b % 2 == 0 {
      XorChanges(a / 2, b / 2);
      HalvesDiffer(x, a);
    } else {
      ParitySum(a, b);
      ParitiesDiffer(x, a);
    }
  }

  lemma HalvesDiffer(x: nat, y: nat)
    requires x / 2 != y / 2
    ensures x != y
  {
  }

  lemma ParitiesDiffer(x: nat, y: nat)
    requires x % 2 != y % 2
    ensures x != y
  {
  }

  lemma {:induction false} HighBitIsSet(n: nat)
    requires n > 0
    ensures Bit(n, HighBit(n)) == 1
  {
    if n > 1 {
      HighBitIsSet(n / 2);
    }
  }

  /**
   * The heart of Nim: exclusive-or with a positive `s` makes `h` smaller
   * exactly when `h` has the most significant bit of `s` set.
   */
  lemma {:induction false} XorLessIffHighBit(h: nat, s: nat)
    requires s > 0
    ensures Xor(h, s) < h <==> Bit(h, HighBit(s)) == 1
    decreases s
  {
    XorStep(h, s);
    if s == 1 {
      XorZero(h / 2);
    } else {
      var y := Xor(h / 2, s / 2);
      XorChanges(h / 2, s / 2);
      XorLessIffHighBit(h / 2, s / 2);
      assert Xor(h, s) < h <==> y < h / 2;
    }
  }
}
