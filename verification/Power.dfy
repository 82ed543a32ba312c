/**
  * ipow of rtlora_mac.c: integer powers by repeated squaring, the source of slot demands and group
  * sizes.
  */
module Power {

  import opened RegistrySpec

  function Pow(b: int, e: nat): int {
    if e == 0 then 1 else b * Pow(b, e - 1)
  }

  lemma {:induction false} PowAdd(b: int, m: nat, n: nat)
    ensures Pow(b, m + n) == Pow(b, m) * Pow(b, n)
  {
    if m > 0 {
      PowAdd(b, m - 1, n);
      calc {
        Pow(b, m + n);
        b * (Pow(b, m - 1) * Pow(b, n));
        (b * Pow(b, m - 1)) * Pow(b, n);
      }
    }
  }

  lemma {:induction false} PowSquare(b: int, n: nat)
    ensures Pow(b * b, n) == Pow(b, 2 * n)
  {
    if n > 0 {
      PowSquare(b, n - 1);
      PowAdd(b, 2, 2 * n - 2);
      assert Pow(b, 2) == b * (b * Pow(b, 0));
    }
  }

  lemma {:induction false} PowOfTwo(n: nat)
    ensures Pow(2, n) == Pow2(n)
  {
    if n > 0 { PowOfTwo(n - 1); }
  }

  /** What one round of the loop keeps. */
  lemma {:induction false} Halve(r: int, b: int, e: nat)
    requires e > 0
    ensures r * Pow(b, e) == (if e % 2 == 1 then r * b else r) * Pow(b * b, e / 2)
  {
    PowSquare(b, e / 2);
    if e % 2 == 1 {
      assert e == 1 + 2 * (e / 2);
      assert Pow(b, e) == b * Pow(b, 2 * (e / 2));
      Reassociate(r, b, Pow(b, 2 * (e / 2)));
    }
  }

  lemma {:induction false} Reassociate(r: int, b: int, p: int)
    ensures r * (b * p) == (r * b) * p
  {
  }

  method IPow(base: int, exp: nat) returns (result: int)
    ensures result == Pow(base, exp)
    ensures base == 2 ==> result == Pow2(exp)
  {
    var b, e := base, exp;
    result := 1;
    while e != 0
      invariant result * Pow(b, e) == Pow(base, exp)
    {
      Halve(result, b, e);
      if e % 2 == 1 {
        result := result * b;
      }
      e := e / 2;
      b := b * b;
    }
    PowOfTwo(exp);
  }
}
