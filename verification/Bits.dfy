/** Bitwise operations on unsigned 64-bit words, bit by bit, and what they do to fields that do not overlap. */
module Bits {

  const WORD_BITS := 64

  function Or(a: nat, b: nat): nat {
    if a == 0 && b == 0 then 0
    else (if a % 2 == 1 || b % 2 == 1 then 1 else 0) + 2 * Or(a / 2, b / 2)
  }

  function And(a: nat, b: nat): nat {
    if a == 0 || b == 0 then 0
    else (if a % 2 == 1 && b % 2 == 1 then 1 else 0) + 2 * And(a / 2, b / 2)
  }

  /** `a` with `k` zero bits appended. */
  function Shifted(a: nat, k: nat): nat
    decreases a, k
  {
    if k == 0 then a else 2 * Shifted(a, k - 1)
  }

  lemma ShiftedGrows(a: nat, k: nat)
    ensures Shifted(a, k) >= a
  {
  }

  /** The largest number of `k` bits: a mask of ones. */
  function Ones(k: nat): nat {
    ShiftedGrows(1, k);
    Shifted(1, k) - 1
  }

  /** A left shift in a word drops what leaves the word. */
  function Shl(a: nat, k: nat): nat {
    Shifted(a, k) % (Ones(WORD_BITS) + 1)
  }

  function Shr(a: nat, k: nat): nat
    decreases a, k
  {
    if k == 0 then a else Shr(a / 2, k - 1)
  }

  lemma {:induction false} OrWithZero(a: nat)
    ensures Or(a, 0) == a && Or(0, a) == a
  {
    if a > 0 {
      OrWithZero(a / 2);
    }
  }

  /** A number shifted past another's bits and that number combine by addition. */
  lemma {:induction false} OrOfDisjoint(high: nat, low: nat, k: nat)
    requires low <= Ones(k)
    ensures Or(Shifted(high, k), low) == Shifted(high, k) + low
  {
    if k == 0 {
      OrWithZero(high);
    } else {
      OrOfDisjoint(high, low / 2, k - 1);
    }
  }

  /** The high field can be read back by shifting, the low one by masking. */
  lemma {:induction false} FieldsReadBack(high: nat, low: nat, k: nat)
    requires low <= Ones(k)
    ensures Shr(Shifted(high, k) + low, k) == high
    ensures And(Shifted(high, k) + low, Ones(k)) == low
  {
    if k > 0 {
      FieldsReadBack(high, low / 2, k - 1);
      assert (Shifted(high, k) + low) / 2 == Shifted(high, k - 1) + low / 2;
      assert Ones(k) / 2 == Ones(k - 1);
    }
  }

  /** A larger high field outweighs any low field. */
  lemma {:induction false} HighFieldDecides(a: nat, b: nat, k: nat)
    requires a < b
    ensures Shifted(a, k) + Ones(k) < Shifted(b, k)
  {
    if k > 0 {
      HighFieldDecides(a, b, k - 1);
    }
  }

  /** Fields of `n` and `k` bits make a number of `n + k` bits. */
  lemma {:induction false} FieldsFit(a: nat, n: nat, k: nat)
    requires a <= Ones(n)
    ensures Shifted(a, k) + Ones(k) <= Ones(n + k)
  {
    if k > 0 {
      FieldsFit(a, n, k - 1);
    }
  }

  lemma {:induction false} ShiftedTwice(a: nat, j: nat, k: nat)
    ensures Shifted(Shifted(a, j), k) == Shifted(a, j + k)
  {
    if k > 0 {
      ShiftedTwice(a, j, k - 1);
    }
  }

  lemma {:induction false} ShiftedSum(a: nat, b: nat, k: nat)
    ensures Shifted(a + b, k) == Shifted(a, k) + Shifted(b, k)
  {
    if k > 0 {
      ShiftedSum(a, b, k - 1);
    }
  }

  lemma {:induction false} ShiftedIsProduct(a: nat, k: nat)
    ensures Shifted(a, k) == a * Shifted(1, k)
    decreases k
  {
    if k > 0 {
      var less := k - 1;
      ShiftedIsProduct(a, less);
      assert 2 * (a * Shifted(1, less)) == a * (2 * Shifted(1, less));
    }
  }

  /** Three fields, from the high end: any number, one of `m` bits, one of `n` bits. They combine by addition. */
  lemma ThreeFieldsAdd(a: nat, b: nat, c: nat, m: nat, n: nat)
    requires b <= Ones(m) && c <= Ones(n)
    ensures Or(Or(Shifted(a, n + m), Shifted(b, n)), c) == Shifted(a, n + m) + Shifted(b, n) + c
  {
    FieldsFit(b, m, n);
    assert m + n == n + m;
    OrOfDisjoint(a, Shifted(b, n), n + m);
    UpperFields(a, b, m, n);
    OrOfDisjoint(Shifted(a, m) + b, c, n);
  }

  /** The two upper fields together are one field above the lowest. */
  lemma UpperFields(a: nat, b: nat, m: nat, n: nat)
    ensures Shifted(a, n + m) + Shifted(b, n) == Shifted(Shifted(a, m) + b, n)
  {
    ShiftedTwice(a, m, n);
    ShiftedSum(Shifted(a, m), b, n);
    assert m + n == n + m;
  }

  /** Each of the three fields can be read back. */
  lemma ThreeFieldsReadBack(a: nat, b: nat, c: nat, m: nat, n: nat)
    requires b <= Ones(m) && c <= Ones(n)
    ensures var id := Shifted(a, n + m) + Shifted(b, n) + c;
            Shr(id, n + m) == a && And(Shr(id, n), Ones(m)) == b && And(id, Ones(n)) == c
  {
    FieldsFit(b, m, n);
    assert m + n == n + m;
    FieldsReadBack(a, Shifted(b, n) + c, n + m);
    assert Shifted(a, n + m) + (Shifted(b, n) + c) == Shifted(a, n + m) + Shifted(b, n) + c;
    UpperFields(a, b, m, n);
    FieldsReadBack(Shifted(a, m) + b, c, n);
    FieldsReadBack(a, b, m);
  }

  /** The order of such numbers is the order of their fields, when the middle fields agree. */
  lemma ThreeFieldsOrder(a1: nat, c1: nat, a2: nat, c2: nat, b: nat, m: nat, n: nat)
    requires b <= Ones(m) && c1 <= Ones(n) && c2 <= Ones(n)
    ensures Shifted(a1, n + m) + Shifted(b, n) + c1 < Shifted(a2, n + m) + Shifted(b, n) + c2
            <==> a1 < a2 || (a1 == a2 && c1 < c2)
  {
    FieldsFit(b, m, n);
    if a1 < a2 {
      HighFieldDecides(a1, a2, n + m);
    } else if a2 < a1 {
      HighFieldDecides(a2, a1, n + m);
    }
  }

  lemma ThreeFieldsFit(a: nat, b: nat, c: nat, l: nat, m: nat, n: nat)
    requires a <= Ones(l) && b <= Ones(m) && c <= Ones(n)
    ensures Shifted(a, n + m) + Shifted(b, n) + c <= Ones(l + m + n)
  {
    FieldsFit(b, m, n);
    FieldsFit(a, l, n + m);
    assert l + (n + m) == l + m + n;
  }

  /** A shift that stays below the top bit of the word loses nothing. */
  lemma ShlLosesNothing(a: nat, k: nat)
    requires Shifted(a, k) <= Ones(WORD_BITS - 1)
    ensures Shl(a, k) == Shifted(a, k)
  {
    var word := Ones(WORD_BITS) + 1;
    assert word == 2 * (Ones(WORD_BITS - 1) + 1);
    SmallRemainder(Shifted(a, k), word);
  }

  lemma SmallRemainder(x: nat, w: nat)
    requires x < w
    ensures x % w == x
  {
  }
}
