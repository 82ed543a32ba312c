/**
  * The tables and the products of aes.c against the field of section 4.2 of FIPS 197: the substitution table is the
  * multiplicative inverse followed by the affine map of section 5.1.1, and Multiply is the product of the field.
  */
module AesField {
  import opened AesBytes

  /** The product in the field, by doubling and adding over all eight bits of y. */
  function Product(x: bv8, y: bv8): bv8 {
    var x2 := Xtime(x);
    var x4 := Xtime(x2);
    var x8 := Xtime(x4);
    var x16 := Xtime(x8);
    var x32 := Xtime(x16);
    var x64 := Xtime(x32);
    var x128 := Xtime(x64);
    Add(Add(Sum(Word(Masked(x, y, 1), Masked(x2, y, 2), Masked(x4, y, 4), Masked(x8, y, 8))), Masked(x16, y, 16)),
        Add(Add(Masked(x32, y, 32), Masked(x64, y, 64)), Masked(x128, y, 128)))
  }

  /** The code's product of five bits is the field's, for every factor it is used with. */
  lemma {:induction false} MultiplyIsProduct(x: bv8, y: bv8)
    requires y < 32
    ensures Multiply(x, y) == Product(x, y)
  {
    hide Xtime, Sum, Add;
    HighBitsClear(y, Xtime(Xtime(Xtime(Xtime(Xtime(x))))));
    HighBitsClear(y, Xtime(Xtime(Xtime(Xtime(Xtime(Xtime(x)))))));
    HighBitsClear(y, Xtime(Xtime(Xtime(Xtime(Xtime(Xtime(Xtime(x))))))));
    AddZero(0);
    AddZero(Multiply(x, y));
  }

  lemma {:induction false} HighBitsClear(y: bv8, z: bv8)
    requires y < 32
    ensures Masked(z, y, 32) == 0 && Masked(z, y, 64) == 0 && Masked(z, y, 128) == 0
  {
  }

  function RotateLeft(x: bv8, n: nat): bv8
    requires 1 <= n <= 6
  {
    if n == 1 then (x << 1) | (x >> 7)
    else if n == 2 then (x << 2) | (x >> 6)
    else if n == 3 then (x << 3) | (x >> 5)
    else if n == 4 then (x << 4) | (x >> 4)
    else if n == 5 then (x << 5) | (x >> 3)
    else (x << 6) | (x >> 2)
  }

  /** The affine map, and its inverse. */
  function Affine(b: bv8): bv8 {
    b ^ RotateLeft(b, 1) ^ RotateLeft(b, 2) ^ RotateLeft(b, 3) ^ RotateLeft(b, 4) ^ 0x63
  }

  function Unaffine(b: bv8): bv8 {
    RotateLeft(b, 1) ^ RotateLeft(b, 3) ^ RotateLeft(b, 6) ^ 0x05
  }

  lemma {:induction false} AffineUndoes(b: bv8)
    ensures Affine(Unaffine(b)) == b
  {
  }

  lemma {:induction false} FirstQuarter(x: bv8)
    requires 0 < x <= 0x40
    ensures Product(x, Unaffine(Sbox(x))) == 1
  {
  }

  lemma {:induction false} SecondQuarter(x: bv8)
    requires 0x40 < x <= 0x80
    ensures Product(x, Unaffine(Sbox(x))) == 1
  {
  }

  lemma {:induction false} ThirdQuarter(x: bv8)
    requires 0x80 < x <= 0xC0
    ensures Product(x, Unaffine(Sbox(x))) == 1
  {
  }

  lemma {:induction false} FourthQuarter(x: bv8)
    requires 0xC0 < x
    ensures Product(x, Unaffine(Sbox(x))) == 1
  {
  }

  lemma {:induction false} SboxOfZero()
    ensures Unaffine(Sbox(0)) == 0
  {
  }

  /** sbox[x] is the affine image of some y with x * y = 1 in the field, and of 0 when x is 0. */
  lemma {:induction false} SboxIsInverse(x: bv8) returns (y: bv8)
    ensures Sbox(x) == Affine(y)
    ensures if x == 0 then y == 0 else Product(x, y) == 1
  {
    hide Sbox, Product, Affine, Unaffine;
    y := Unaffine(Sbox(x));
    AffineUndoes(Sbox(x));
    if x == 0 {
      SboxOfZero();
    } else if x <= 0x40 {
      FirstQuarter(x);
    } else if x <= 0x80 {
      SecondQuarter(x);
    } else if x <= 0xC0 {
      ThirdQuarter(x);
    } else {
      FourthQuarter(x);
    }
  }
}
