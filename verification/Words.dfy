/**
 Machine words as naturals, with the bit operations of the source spelled out: a shift that drops
 what leaves the word, bitwise and, or and complement, and which bits each of them sets.
 */
module Words {
  function Pow2(k: nat): (p: nat)
    ensures p > 0
  {
    if k == 0 then 1 else 2 * Pow2(k - 1)
  }

  // Bit i of the word m.
  predicate Bit(m: nat, i: nat) {
    if i == 0 then m % 2 == 1 else Bit(m / 2, i - 1)
  }

  function Or(a: nat, b: nat): nat {
    if a == 0 && b == 0 then 0
    else (if a % 2 == 1 || b % 2 == 1 then 1 else 0) + 2 * Or(a / 2, b / 2)
  }

  function And(a: nat, b: nat): nat {
    if a == 0 || b == 0 then 0
    else (if a % 2 == 1 && b % 2 == 1 then 1 else 0) + 2 * And(a / 2, b / 2)
  }

  // The complement of a word of the given width.
  function Not(width: nat, m: nat): nat
    requires m < Pow2(width)
  {
    Pow2(width) - 1 - m
  }

  // A left shift within a word of the given width.
  function Shl(width: nat, m: nat, s: nat): nat {
    m * Pow2(s) % Pow2(width)
  }

  lemma {:induction false} Pow2Adds(a: nat, b: nat)
    ensures Pow2(a + b) == Pow2(a) * Pow2(b)
  {
    if a > 0 {
      Pow2Adds(a - 1, b);
    }
  }

  lemma {:induction false} Pow2Grows(a: nat, b: nat)
    requires a <= b
    ensures Pow2(a) <= Pow2(b)
  {
    if a < b {
      Pow2Grows(a, b - 1);
    }
  }

  lemma {:induction false} ZeroBits(i: nat)
    ensures !Bit(0, i)
  {
    if i > 0 {
      ZeroBits(i - 1);
    }
  }

  lemma {:induction false} OrBits(a: nat, b: nat, i: nat)
    ensures Bit(Or(a, b), i) == (Bit(a, i) || Bit(b, i))
  {
    if a == 0 && b == 0 {
      ZeroBits(i);
    } else {
      assert Or(a, b) / 2 == Or(a / 2, b / 2);
      if i > 0 {
        OrBits(a / 2, b / 2, i - 1);
      }
    }
  }

  lemma {:induction false} AndBits(a: nat, b: nat, i: nat)
    ensures Bit(And(a, b), i) == (Bit(a, i) && Bit(b, i))
  {
    if a == 0 || b == 0 {
      ZeroBits(i);
    } else {
      assert And(a, b) / 2 == And(a / 2, b / 2);
      if i > 0 {
        AndBits(a / 2, b / 2, i - 1);
      }
    }
  }

  lemma {:induction false} OrBound(a: nat, b: nat, k: nat)
    requires a < Pow2(k) && b < Pow2(k)
    ensures Or(a, b) < Pow2(k)
  {
    if k > 0 {
      OrBound(a / 2, b / 2, k - 1);
    }
  }

  lemma {:induction false} AndBound(a: nat, b: nat, k: nat)
    requires b < Pow2(k)
    ensures And(a, b) < Pow2(k)
  {
    if k > 0 {
      AndBound(a / 2, b / 2, k - 1);
    }
  }

  // The power 2^k has bit k and no other.
  lemma {:induction false} PowerBits(k: nat, i: nat)
    ensures Bit(Pow2(k), i) == (i == k)
  {
    if k == 0 {
      if i > 0 {
        ZeroBits(i - 1);
      }
    } else if i > 0 {
      PowerBits(k - 1, i - 1);
    }
  }

  // One less than a power of two is a run of ones.
  lemma {:induction false} MaskBits(k: nat, i: nat)
    ensures Bit(Pow2(k) - 1, i) == (i < k)
  {
    if k == 0 {
      ZeroBits(i);
    } else {
      assert (Pow2(k) - 1) / 2 == Pow2(k - 1) - 1;
      if i > 0 {
        MaskBits(k - 1, i - 1);
      }
    }
  }

  lemma {:induction false} NotBits(width: nat, m: nat, i: nat)
    requires m < Pow2(width) && i < width
    ensures Bit(Not(width, m), i) == !Bit(m, i)
  {
    assert Not(width, m) / 2 == Not(width - 1, m / 2);
    if i > 0 {
      NotBits(width - 1, m / 2, i - 1);
    }
  }

  // Reducing to a width keeps the bits below it.
  lemma {:induction false} LowBits(width: nat, m: nat, i: nat)
    requires i < width
    ensures Bit(m % Pow2(width), i) == Bit(m, i)
  {
    Halve(m, Pow2(width - 1));
    if i > 0 {
      LowBits(width - 1, m / 2, i - 1);
    }
  }

  lemma Halve(m: nat, p: nat)
    requires p > 0
    ensures m % (2 * p) / 2 == (m / 2) % p
    ensures m % (2 * p) % 2 == m % 2
  {
    var q, r := (m / 2) / p, (m / 2) % p;
    assert m == (2 * p) * q + (2 * r + m % 2);
    QuotientRemainder(m, 2 * p, q, 2 * r + m % 2);
  }

  lemma QuotientRemainder(m: nat, d: nat, q: nat, r: nat)
    requires m == d * q + r && r < d
    ensures m / d == q && m % d == r
  {
    var e: int := m / d - q;
    Times(d, m / d, q);
    if e >= 1 {
      AtLeast(d, e);
    } else if e <= -1 {
      AtLeast(d, -e);
    }
  }

  lemma Times(d: nat, a: int, b: int)
    ensures d * (a - b) == d * a - d * b
  {
  }

  lemma AtLeast(d: int, e: int)
    requires d >= 0 && e >= 1
    ensures d * e >= d && d * -e <= -d
  {
  }

  lemma {:induction false} ScaledBits(m: nat, s: nat, i: nat)
    ensures Bit(m * Pow2(s), i) == (s <= i && Bit(m, i - s))
  {
    if s > 0 {
      assert m * Pow2(s) == 2 * (m * Pow2(s - 1));
      if i > 0 {
        ScaledBits(m, s - 1, i - 1);
      }
    }
  }

  lemma {:induction false} ShlBits(width: nat, m: nat, s: nat, i: nat)
    requires i < width
    ensures Bit(Shl(width, m, s), i) == (s <= i && Bit(m, i - s))
  {
    LowBits(width, m * Pow2(s), i);
    ScaledBits(m, s, i);
  }

  // A word is zero exactly when it has no bit, so two words with the same bits are the same.
  lemma {:induction false} SameBits(width: nat, a: nat, b: nat)
    requires a < Pow2(width) && b < Pow2(width)
    requires forall i :: 0 <= i < width ==> Bit(a, i) == Bit(b, i)
    ensures a == b
  {
    if width > 0 {
      assert Bit(a, 0) == Bit(b, 0);
      forall i | 0 <= i < width - 1 ensures Bit(a / 2, i) == Bit(b / 2, i) {
        assert Bit(a, i + 1) == Bit(b, i + 1);
      }
      SameBits(width - 1, a / 2, b / 2);
    }
  }

  // Or-ing a word below 2^k into a multiple of 2^k adds it.
  lemma {:induction false} OrDisjoint(a: nat, k: nat, b: nat)
    requires b < Pow2(k)
    ensures Or(a * Pow2(k), b) == a * Pow2(k) + b
  {
    if k == 0 {
      OrZero(a);
    } else {
      assert a * Pow2(k) == 2 * (a * Pow2(k - 1));
      OrDisjoint(a, k - 1, b / 2);
    }
  }

  lemma {:induction false} OrZero(a: nat)
    ensures Or(a, 0) == a
  {
    if a > 0 {
      OrZero(a / 2);
    }
  }

  // Testing a word against a single bit.
  lemma {:induction false} TestBit(m: nat, k: nat)
    ensures And(m, Pow2(k)) != 0 <==> Bit(m, k)
  {
    if Bit(m, k) {
      AndBits(m, Pow2(k), k);
      PowerBits(k, k);
      ZeroBits(k);
    } else {
      var x := And(m, Pow2(k));
      AndBound(m, Pow2(k), k + 1);
      forall i | 0 <= i < k + 1 ensures Bit(x, i) == Bit(0, i) {
        AndBits(m, Pow2(k), i);
        PowerBits(k, i);
        ZeroBits(i);
      }
      SameBits(k + 1, x, 0);
    }
  }
}
