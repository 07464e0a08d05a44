/**
 Bits of machine words, and the mask and scan idioms of the free-frame bitmap.
 A word is the integer it denotes; `&` and `|` work digit by digit.
 */
module Bits {

  predicate Bit(word: nat, i: nat) {
    if i == 0 then word % 2 == 1 else Bit(word / 2, i - 1)
  }

  function Pow2(n: nat): nat {
    if n == 0 then 1 else 2 * Pow2(n - 1)
  }

  function And(a: nat, b: nat): nat {
    if a == 0 || b == 0 then 0 else (if a % 2 == 1 && b % 2 == 1 then 1 else 0) + 2 * And(a / 2, b / 2)
  }

  function Or(a: nat, b: nat): nat
    decreases a + b
  {
    if a == 0 then b else if b == 0 then a else
    (if a % 2 == 1 || b % 2 == 1 then 1 else 0) + 2 * Or(a / 2, b / 2)
  }

  function TrailingZeros(word: nat): nat
    requires word > 0
  {
    if word % 2 == 1 then 0 else 1 + TrailingZeros(word / 2)
  }

  function CountOnes(word: nat): nat {
    if word == 0 then 0 else word % 2 + CountOnes(word / 2)
  }

  lemma {:induction false} BitOfZero(i: nat)
    ensures !Bit(0, i)
  {
    if i > 0 {
      BitOfZero(i - 1);
    }
  }

  lemma {:induction false} BitAnd(a: nat, b: nat, i: nat)
    ensures Bit(And(a, b), i) == (Bit(a, i) && Bit(b, i))
    decreases i
  {
    BitOfZero(i);
    if a > 0 && b > 0 && i > 0 {
      BitAnd(a / 2, b / 2, i - 1);
    }
  }

  lemma {:induction false} BitOr(a: nat, b: nat, i: nat)
    ensures Bit(Or(a, b), i) == (Bit(a, i) || Bit(b, i))
    decreases i
  {
    BitOfZero(i);
    if a > 0 && b > 0 && i > 0 {
      BitOr(a / 2, b / 2, i - 1);
    }
  }

  lemma {:induction false} Pow2Monotone(k: nat, n: nat)
    requires k <= n
    ensures 1 <= Pow2(k) <= Pow2(n)
    decreases n
  {
    if n > 0 && k < n {
      Pow2Monotone(k, n - 1);
    } else if n > 0 {
      Pow2Monotone(k - 1, n - 1);
    }
  }

  /** A run of ones: bits `k` up to, not including, `n`. */
  lemma {:induction false} BitOfRun(k: nat, n: nat, i: nat)
    requires k <= n
    ensures Pow2(k) <= Pow2(n)
    ensures Bit(Pow2(n) - Pow2(k), i) == (k <= i < n)
    decreases n
  {
    Pow2Monotone(k, n);
    if n == k {
      BitOfZero(i);
    } else if k > 0 {
      if i > 0 {
        BitOfRun(k - 1, n - 1, i - 1);
      }
    } else {
      if i > 0 {
        BitOfRun(0, n - 1, i - 1);
        assert (Pow2(n) - 1) / 2 == Pow2(n - 1) - 1;
      }
    }
  }

  lemma {:induction false} BitOfOne(k: nat, i: nat)
    ensures Bit(Pow2(k), i) == (i == k)
    decreases i
  {
    if i > 0 && k > 0 {
      BitOfOne(k - 1, i - 1);
    } else if i > 0 {
      BitOfZero(i - 1);
    }
  }

  lemma {:induction false} BitOfComplement(word: nat, n: nat, i: nat)
    requires word < Pow2(n)
    ensures i < n ==> Bit(Pow2(n) - 1 - word, i) == !Bit(word, i)
    decreases n
  {
    if n > 0 && i > 0 {
      assert (Pow2(n) - 1 - word) / 2 == Pow2(n - 1) - 1 - word / 2;
      BitOfComplement(word / 2, n - 1, i - 1);
    }
  }

  /** The scan finds a set bit, and none lies below it. */
  lemma {:induction false} TrailingZerosIsLowest(word: nat, n: nat)
    requires 0 < word < Pow2(n)
    ensures TrailingZeros(word) < n && Bit(word, TrailingZeros(word))
    ensures forall i :: 0 <= i < TrailingZeros(word) ==> !Bit(word, i)
    decreases n
  {
    if word % 2 == 0 {
      TrailingZerosIsLowest(word / 2, n - 1);
      forall i | 0 <= i < TrailingZeros(word)
        ensures !Bit(word, i)
      {
      }
    }
  }

  lemma {:induction false} AndSelf(a: nat)
    ensures And(a, a) == a
  {
    if a > 0 {
      AndSelf(a / 2);
    }
  }

  /** `word & (word - 1)` clears the lowest set bit and no other. */
  lemma {:induction false} BitAfterClearLowest(word: nat, i: nat)
    requires word > 0
    ensures Bit(And(word, word - 1), i) == (Bit(word, i) && i != TrailingZeros(word))
    decreases word
  {
    var rest := word / 2;
    if word % 2 == 1 {
      assert (word - 1) / 2 == rest && (word - 1) % 2 == 0;
      AndSelf(rest);
      BitOfZero(i);
      assert And(word, word - 1) == 2 * rest;
      if i > 0 {
        assert Bit(And(word, word - 1), i) == Bit(rest, i - 1);
      }
    } else {
      assert (word - 1) / 2 == rest - 1;
      assert And(word, word - 1) == 2 * And(rest, rest - 1);
      if i > 0 {
        BitAfterClearLowest(rest, i - 1);
      }
    }
  }

  lemma {:induction false} AndShrinks(a: nat, b: nat)
    ensures And(a, b) <= a && And(a, b) <= b
  {
    if a > 0 && b > 0 {
      AndShrinks(a / 2, b / 2);
    }
  }

  lemma {:induction false} OrFits(a: nat, b: nat, n: nat)
    requires a < Pow2(n) && b < Pow2(n)
    ensures Or(a, b) < Pow2(n)
    decreases n
  {
    if a > 0 && b > 0 {
      OrFits(a / 2, b / 2, n - 1);
    }
  }

}
