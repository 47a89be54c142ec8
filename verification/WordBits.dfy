/** The bits of a 16-bit word, and the bitwise operations on words, bit by bit. */
module WordBits {
  import opened ModbusTypes

  function ShiftedRight(w: nat, k: nat): nat {
    if k == 0 then w else ShiftedRight(w / 2, k - 1)
  }

  predicate BitAt(w: nat, k: nat) {
    ShiftedRight(w, k) % 2 == 1
  }

  function Pow2(k: nat): nat {
    if k == 0 then 1 else 2 * Pow2(k - 1)
  }

  function BitOf(b: bool): nat { if b then 1 else 0 }

  function And(a: Word, b: Word): (r: Word)
    ensures r <= a
  {
    if a == 0 then 0 else 2 * And(a / 2, b / 2) + BitOf(a % 2 == 1 && b % 2 == 1)
  }

  function OrBelow(a: nat, b: nat, n: nat): (r: nat)
    requires a < Pow2(n) && b < Pow2(n)
    ensures r < Pow2(n)
  {
    if n == 0 then 0 else 2 * OrBelow(a / 2, b / 2, n - 1) + BitOf(a % 2 == 1 || b % 2 == 1)
  }

  lemma WordSize()
    ensures Pow2(16) == 0x1_0000
  {
    assert Pow2(16) == 16 * Pow2(12) == 256 * Pow2(8);
  }

  function Or(a: Word, b: Word): Word {
    WordSize();
    OrBelow(a, b, 16)
  }

  function Not(a: Word): Word { 0xFFFF - a }

  // ----- what the operations do to each bit -----

  lemma {:induction false} BitOfAnd(a: Word, b: Word, k: nat)
    ensures BitAt(And(a, b), k) <==> BitAt(a, k) && BitAt(b, k)
  {
    if a == 0 {
      NoBitOfZero(k);
    } else {
      var r := And(a, b);
      assert r / 2 == And(a / 2, b / 2);
      if k > 0 {
        BitOfAnd(a / 2, b / 2, k - 1);
      }
    }
  }

  lemma {:induction false} NoBitOfZero(k: nat)
    ensures !BitAt(0, k)
  {
    if k > 0 {
      NoBitOfZero(k - 1);
    }
  }

  lemma {:induction false} BitOfOrBelow(a: nat, b: nat, n: nat, k: nat)
    requires a < Pow2(n) && b < Pow2(n) && k < n
    ensures BitAt(OrBelow(a, b, n), k) <==> BitAt(a, k) || BitAt(b, k)
  {
    assert OrBelow(a, b, n) / 2 == OrBelow(a / 2, b / 2, n - 1);
    if k > 0 {
      BitOfOrBelow(a / 2, b / 2, n - 1, k - 1);
    }
  }

  lemma BitOfOr(a: Word, b: Word, k: nat)
    requires k < 16
    ensures BitAt(Or(a, b), k) <==> BitAt(a, k) || BitAt(b, k)
  {
    WordSize();
    BitOfOrBelow(a, b, 16, k);
  }

  lemma {:induction false} BitOfNotBelow(a: nat, n: nat, k: nat)
    requires a < Pow2(n) && k < n
    ensures BitAt(Pow2(n) - 1 - a, k) <==> !BitAt(a, k)
  {
    assert (Pow2(n) - 1 - a) / 2 == Pow2(n - 1) - 1 - a / 2;
    if k > 0 {
      BitOfNotBelow(a / 2, n - 1, k - 1);
    }
  }

  lemma BitOfNot(a: Word, k: nat)
    requires k < 16
    ensures BitAt(Not(a), k) <==> !BitAt(a, k)
  {
    WordSize();
    BitOfNotBelow(a, 16, k);
  }

  // ----- the bits determine the word -----

  lemma {:induction false} BitsDetermine(w: nat, v: nat, n: nat)
    requires w < Pow2(n) && v < Pow2(n) && forall k | 0 <= k < n :: BitAt(w, k) == BitAt(v, k)
    ensures w == v
  {
    if n > 0 {
      assert BitAt(w, 0) == BitAt(v, 0);
      forall k | 0 <= k < n - 1 ensures BitAt(w / 2, k) == BitAt(v / 2, k) {
        assert BitAt(w, k + 1) == BitAt(v, k + 1);
      }
      BitsDetermine(w / 2, v / 2, n - 1);
    }
  }

  // The sixteen extracted bits determine the word.
  lemma BitsDetermineWord(w: Word, v: Word)
    ensures (forall k | 0 <= k < 16 :: BitAt(w, k) == BitAt(v, k)) <==> w == v
  {
    WordSize();
    if forall k | 0 <= k < 16 :: BitAt(w, k) == BitAt(v, k) {
      BitsDetermine(w, v, 16);
    }
  }

  // ----- bits as digits -----

  lemma HalvesOfQuotient(w: nat, a: nat)
    requires a > 0
    ensures w / (2 * a) == w / 2 / a
  {
    var q, r := w / 2 / a, w / 2 % a;
    assert w / 2 == a * q + r;
    var rest := 2 * r + w % 2;
    assert w == 2 * a * q + rest && 0 <= rest < 2 * a;
    QuotientIs(w, 2 * a, q, rest);
  }

  lemma QuotientIs(w: nat, a: nat, q: nat, r: nat)
    requires a > 0 && w == a * q + r && r < a
    ensures w / a == q
  {
    var d := w / a;
    DivisionBounds(w, a);
    if d > q {
      ProductGrows(a, q + 1, d);
    } else if d < q {
      ProductGrows(a, d + 1, q);
    }
  }

  lemma DivisionBounds(w: nat, a: nat)
    requires a > 0
    ensures a * (w / a) <= w < a * (w / a) + a
  {
  }

  lemma ProductGrows(a: nat, x: nat, y: nat)
    requires x <= y
    ensures a * x <= a * y
  {
    assert a * y - a * x == a * (y - x);
  }

  lemma {:induction false} PositivePow2(k: nat)
    ensures Pow2(k) > 0
  {
    if k > 0 {
      PositivePow2(k - 1);
    }
  }

  // Bit k is the k-th binary digit.
  lemma {:induction false} BitIsDigit(w: nat, k: nat)
    ensures Pow2(k) > 0
    ensures BitAt(w, k) <==> w / Pow2(k) % 2 == 1
  {
    PositivePow2(k);
    if k > 0 {
      BitIsDigit(w / 2, k - 1);
      HalvesOfQuotient(w, Pow2(k - 1));
    }
  }

  // Two words have a bit in common exactly when their conjunction is not zero.
  lemma CommonBit(a: Word, b: Word)
    ensures And(a, b) != 0 <==> exists k :: 0 <= k < 16 && BitAt(a, k) && BitAt(b, k)
  {
    hide And, BitAt;
    BitsDetermineWord(And(a, b), 0);
    forall k | 0 <= k < 16 ensures BitAt(And(a, b), k) != BitAt(0, k) <==> BitAt(a, k) && BitAt(b, k) {
      BitOfAnd(a, b, k);
      NoBitOfZero(k);
    }
  }
}
