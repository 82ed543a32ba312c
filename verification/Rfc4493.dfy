/**
  * The second example of section 4 of RFC 4493, whose key is that of appendix A.1 of FIPS 197: key schedule, cipher, subkeys
  * and code, computed on the values that the standards give.
  */
module Rfc4493 {
  import opened AesBytes
  import opened Aes
  import opened AesState
  import opened Cmac

  const KEY := Block(Word(0x2b, 0x7e, 0x15, 0x16), Word(0x28, 0xae, 0xd2, 0xa6), Word(0xab, 0xf7, 0x15, 0x88), Word(0x09, 0xcf, 0x4f, 0x3c))

  /** L, K1, K2 and the message of example 2. */
  const SUBKEY_BASE: seq<bv8> := [0x7d, 0xf7, 0x6b, 0x0c, 0x1a, 0xb8, 0x99, 0xb3, 0x3e, 0x42, 0xf0, 0x47, 0xb9, 0x1b, 0x54, 0x6f]
  const SUBKEY_ONE: seq<bv8> := [0xfb, 0xee, 0xd6, 0x18, 0x35, 0x71, 0x33, 0x66, 0x7c, 0x85, 0xe0, 0x8f, 0x72, 0x36, 0xa8, 0xde]
  const SUBKEY_TWO: seq<bv8> := [0xf7, 0xdd, 0xac, 0x30, 0x6a, 0xe2, 0x66, 0xcc, 0xf9, 0x0b, 0xc1, 0x1e, 0xe4, 0x6d, 0x51, 0x3b]
  const MESSAGE: seq<bv8> := [0x6b, 0xc1, 0xbe, 0xe2, 0x2e, 0x40, 0x9f, 0x96, 0xe9, 0x3d, 0x7e, 0x11, 0x73, 0x93, 0x17, 0x2a]

  // ---------------------------------------------------------------- the key schedule

  /** The round keys of KEY, also in appendix A.1 of FIPS 197. */
  function Key(r: nat): Block {
    match r
    case 0 => Block(Word(0x2b, 0x7e, 0x15, 0x16), Word(0x28, 0xae, 0xd2, 0xa6), Word(0xab, 0xf7, 0x15, 0x88), Word(0x09, 0xcf, 0x4f, 0x3c))
    case 1 => Block(Word(0xa0, 0xfa, 0xfe, 0x17), Word(0x88, 0x54, 0x2c, 0xb1), Word(0x23, 0xa3, 0x39, 0x39), Word(0x2a, 0x6c, 0x76, 0x05))
    case 2 => Block(Word(0xf2, 0xc2, 0x95, 0xf2), Word(0x7a, 0x96, 0xb9, 0x43), Word(0x59, 0x35, 0x80, 0x7a), Word(0x73, 0x59, 0xf6, 0x7f))
    case 3 => Block(Word(0x3d, 0x80, 0x47, 0x7d), Word(0x47, 0x16, 0xfe, 0x3e), Word(0x1e, 0x23, 0x7e, 0x44), Word(0x6d, 0x7a, 0x88, 0x3b))
    case 4 => Block(Word(0xef, 0x44, 0xa5, 0x41), Word(0xa8, 0x52, 0x5b, 0x7f), Word(0xb6, 0x71, 0x25, 0x3b), Word(0xdb, 0x0b, 0xad, 0x00))
    case 5 => Block(Word(0xd4, 0xd1, 0xc6, 0xf8), Word(0x7c, 0x83, 0x9d, 0x87), Word(0xca, 0xf2, 0xb8, 0xbc), Word(0x11, 0xf9, 0x15, 0xbc))
    case 6 => Block(Word(0x6d, 0x88, 0xa3, 0x7a), Word(0x11, 0x0b, 0x3e, 0xfd), Word(0xdb, 0xf9, 0x86, 0x41), Word(0xca, 0x00, 0x93, 0xfd))
    case 7 => Block(Word(0x4e, 0x54, 0xf7, 0x0e), Word(0x5f, 0x5f, 0xc9, 0xf3), Word(0x84, 0xa6, 0x4f, 0xb2), Word(0x4e, 0xa6, 0xdc, 0x4f))
    case 8 => Block(Word(0xea, 0xd2, 0x73, 0x21), Word(0xb5, 0x8d, 0xba, 0xd2), Word(0x31, 0x2b, 0xf5, 0x60), Word(0x7f, 0x8d, 0x29, 0x2f))
    case 9 => Block(Word(0xac, 0x77, 0x66, 0xf3), Word(0x19, 0xfa, 0xdc, 0x21), Word(0x28, 0xd1, 0x29, 0x41), Word(0x57, 0x5c, 0x00, 0x6e))
    case _ => Block(Word(0xd0, 0x14, 0xf9, 0xa8), Word(0xc9, 0xee, 0x25, 0x89), Word(0xe1, 0x3f, 0x0c, 0xc8), Word(0xb6, 0x63, 0x0c, 0xa6))
  }

  /** The four words after a round key. */
  function NextKey(k: Block, rcon: bv8): Block {
    var a := Xor(k.c0, Xor(SubWord(Rotate(k.c3)), Word(rcon, 0, 0, 0)));
    var b := Xor(k.c1, a);
    var c := Xor(k.c2, b);
    Block(a, b, c, Xor(k.c3, c))
  }

  lemma {:induction false} NextRoundKey(key: Block, r: nat)
    requires 1 <= r <= ROUNDS
    ensures RoundKey(Expand(key), r) == NextKey(RoundKey(Expand(key), r - 1), RCON[r])
  {
    hide Xor, SubWord, Rotate, KeyWord, Temp;
    WordIs(key, 4 * r);
    WordIs(key, 4 * r + 1);
    WordIs(key, 4 * r + 2);
    WordIs(key, 4 * r + 3);
    FirstTemp(KeyWord(key, 4 * r - 1), r);
    OtherTemp(KeyWord(key, 4 * r), r, 1);
    OtherTemp(KeyWord(key, 4 * r + 1), r, 2);
    OtherTemp(KeyWord(key, 4 * r + 2), r, 3);
  }

  lemma {:induction false} WordIs(key: Block, i: nat)
    requires 4 <= i < KEY_WORDS
    ensures KeyWord(key, i) == Xor(KeyWord(key, i - 4), Temp(KeyWord(key, i - 1), i))
  {
    hide Xor, Temp;
  }

  lemma {:induction false} FirstTemp(w: Word, r: nat)
    requires 1 <= r <= ROUNDS
    ensures Temp(w, 4 * r) == Xor(SubWord(Rotate(w)), Word(RCON[r], 0, 0, 0))
  {
    hide Xor, SubWord, Rotate;
  }

  lemma {:induction false} OtherTemp(w: Word, r: nat, j: nat)
    requires 1 <= r <= ROUNDS && 1 <= j <= 3
    ensures Temp(w, 4 * r + j) == w
  {
    hide Xor, SubWord, Rotate;
  }

  lemma {:induction false} Key1()
    ensures NextKey(Block(Word(0x2b, 0x7e, 0x15, 0x16), Word(0x28, 0xae, 0xd2, 0xa6), Word(0xab, 0xf7, 0x15, 0x88), Word(0x09, 0xcf, 0x4f, 0x3c)), 0x01)
            == Block(Word(0xa0, 0xfa, 0xfe, 0x17), Word(0x88, 0x54, 0x2c, 0xb1), Word(0x23, 0xa3, 0x39, 0x39), Word(0x2a, 0x6c, 0x76, 0x05))
  {
  }

  lemma {:induction false} Key2()
    ensures NextKey(Block(Word(0xa0, 0xfa, 0xfe, 0x17), Word(0x88, 0x54, 0x2c, 0xb1), Word(0x23, 0xa3, 0x39, 0x39), Word(0x2a, 0x6c, 0x76, 0x05)), 0x02)
            == Block(Word(0xf2, 0xc2, 0x95, 0xf2), Word(0x7a, 0x96, 0xb9, 0x43), Word(0x59, 0x35, 0x80, 0x7a), Word(0x73, 0x59, 0xf6, 0x7f))
  {
  }

  lemma {:induction false} Key3()
    ensures NextKey(Block(Word(0xf2, 0xc2, 0x95, 0xf2), Word(0x7a, 0x96, 0xb9, 0x43), Word(0x59, 0x35, 0x80, 0x7a), Word(0x73, 0x59, 0xf6, 0x7f)), 0x04)
            == Block(Word(0x3d, 0x80, 0x47, 0x7d), Word(0x47, 0x16, 0xfe, 0x3e), Word(0x1e, 0x23, 0x7e, 0x44), Word(0x6d, 0x7a, 0x88, 0x3b))
  {
  }

  lemma {:induction false} Key4()
    ensures NextKey(Block(Word(0x3d, 0x80, 0x47, 0x7d), Word(0x47, 0x16, 0xfe, 0x3e), Word(0x1e, 0x23, 0x7e, 0x44), Word(0x6d, 0x7a, 0x88, 0x3b)), 0x08)
            == Block(Word(0xef, 0x44, 0xa5, 0x41), Word(0xa8, 0x52, 0x5b, 0x7f), Word(0xb6, 0x71, 0x25, 0x3b), Word(0xdb, 0x0b, 0xad, 0x00))
  {
  }

  lemma {:induction false} Key5()
    ensures NextKey(Block(Word(0xef, 0x44, 0xa5, 0x41), Word(0xa8, 0x52, 0x5b, 0x7f), Word(0xb6, 0x71, 0x25, 0x3b), Word(0xdb, 0x0b, 0xad, 0x00)), 0x10)
            == Block(Word(0xd4, 0xd1, 0xc6, 0xf8), Word(0x7c, 0x83, 0x9d, 0x87), Word(0xca, 0xf2, 0xb8, 0xbc), Word(0x11, 0xf9, 0x15, 0xbc))
  {
  }

  lemma {:induction false} Key6()
    ensures NextKey(Block(Word(0xd4, 0xd1, 0xc6, 0xf8), Word(0x7c, 0x83, 0x9d, 0x87), Word(0xca, 0xf2, 0xb8, 0xbc), Word(0x11, 0xf9, 0x15, 0xbc)), 0x20)
            == Block(Word(0x6d, 0x88, 0xa3, 0x7a), Word(0x11, 0x0b, 0x3e, 0xfd), Word(0xdb, 0xf9, 0x86, 0x41), Word(0xca, 0x00, 0x93, 0xfd))
  {
  }

  lemma {:induction false} Key7()
    ensures NextKey(Block(Word(0x6d, 0x88, 0xa3, 0x7a), Word(0x11, 0x0b, 0x3e, 0xfd), Word(0xdb, 0xf9, 0x86, 0x41), Word(0xca, 0x00, 0x93, 0xfd)), 0x40)
            == Block(Word(0x4e, 0x54, 0xf7, 0x0e), Word(0x5f, 0x5f, 0xc9, 0xf3), Word(0x84, 0xa6, 0x4f, 0xb2), Word(0x4e, 0xa6, 0xdc, 0x4f))
  {
  }

  lemma {:induction false} Key8()
    ensures NextKey(Block(Word(0x4e, 0x54, 0xf7, 0x0e), Word(0x5f, 0x5f, 0xc9, 0xf3), Word(0x84, 0xa6, 0x4f, 0xb2), Word(0x4e, 0xa6, 0xdc, 0x4f)), 0x80)
            == Block(Word(0xea, 0xd2, 0x73, 0x21), Word(0xb5, 0x8d, 0xba, 0xd2), Word(0x31, 0x2b, 0xf5, 0x60), Word(0x7f, 0x8d, 0x29, 0x2f))
  {
  }

  lemma {:induction false} Key9()
    ensures NextKey(Block(Word(0xea, 0xd2, 0x73, 0x21), Word(0xb5, 0x8d, 0xba, 0xd2), Word(0x31, 0x2b, 0xf5, 0x60), Word(0x7f, 0x8d, 0x29, 0x2f)), 0x1b)
            == Block(Word(0xac, 0x77, 0x66, 0xf3), Word(0x19, 0xfa, 0xdc, 0x21), Word(0x28, 0xd1, 0x29, 0x41), Word(0x57, 0x5c, 0x00, 0x6e))
  {
  }

  lemma {:induction false} Key10()
    ensures NextKey(Block(Word(0xac, 0x77, 0x66, 0xf3), Word(0x19, 0xfa, 0xdc, 0x21), Word(0x28, 0xd1, 0x29, 0x41), Word(0x57, 0x5c, 0x00, 0x6e)), 0x36)
            == Block(Word(0xd0, 0x14, 0xf9, 0xa8), Word(0xc9, 0xee, 0x25, 0x89), Word(0xe1, 0x3f, 0x0c, 0xc8), Word(0xb6, 0x63, 0x0c, 0xa6))
  {
  }

  lemma {:induction false} RoundKeyIs(r: nat)
    requires r <= ROUNDS
    ensures RoundKey(Expand(KEY), r) == Key(r)
  {
    hide NextKey, Xor, SubWord, Rotate;
    if r > 0 {
      RoundKeyIs(r - 1);
      NextRoundKey(KEY, r);
      match r {
        case 1 => Key1();
        case 2 => Key2();
        case 3 => Key3();
        case 4 => Key4();
        case 5 => Key5();
        case 6 => Key6();
        case 7 => Key7();
        case 8 => Key8();
        case 9 => Key9();
        case _ => Key10();
      }
    }
  }

  // ---------------------------------------------------------------- the cipher

  function Round(s: Block, k: Block): Block {
    AddRoundKey(MixColumns(ShiftRows(SubBytes(s))), k)
  }

  function LastRound(s: Block, k: Block): Block {
    AddRoundKey(ShiftRows(SubBytes(s)), k)
  }

  lemma {:induction false} RoundIs(n: nat, p: Block)
    requires 1 <= n < ROUNDS
    ensures Rounds(Expand(KEY), n, p) == Round(Rounds(Expand(KEY), n - 1, p), Key(n))
  {
    hide AddRoundKey, MixColumns, ShiftRows, SubBytes, RoundKey, Expand, Key;
    RoundKeyIs(n);
  }

  /** Rounds n + 1 and n + 2 take s to t. */
  predicate Takes(n: nat, s: Block, t: Block)
    requires n <= 7
  {
    Round(Round(s, Key(n + 1)), Key(n + 2)) == t
  }

  /** The cipher, two rounds at a time. */
  lemma {:induction false} CipherIs(p: Block, s0: Block, s2: Block, s4: Block, s6: Block, s8: Block, c: Block)
    requires s0 == AddRoundKey(p, Key(0))
    requires Takes(0, s0, s2) && Takes(2, s2, s4) && Takes(4, s4, s6) && Takes(6, s6, s8)
    requires c == LastRound(Round(s8, Key(9)), Key(10))
    ensures Cipher(Expand(KEY), p) == c
  {
    hide Round, AddRoundKey, MixColumns, ShiftRows, SubBytes, RoundKey, Expand, Key, Rounds;
    RoundKeyIs(0);
    RoundKeyIs(10);
    FirstKey(p);
    RoundIs(1, p);
    RoundIs(2, p);
    RoundIs(3, p);
    RoundIs(4, p);
    RoundIs(5, p);
    RoundIs(6, p);
    RoundIs(7, p);
    RoundIs(8, p);
    RoundIs(9, p);
  }

  lemma {:induction false} FirstKey(p: Block)
    ensures Rounds(Expand(KEY), 0, p) == AddRoundKey(p, RoundKey(Expand(KEY), 0))
  {
    hide AddRoundKey, RoundKey, Expand;
  }

  lemma {:induction false} ZeroCiphered0()
    ensures AddRoundKey(Block(Word(0x00, 0x00, 0x00, 0x00), Word(0x00, 0x00, 0x00, 0x00), Word(0x00, 0x00, 0x00, 0x00), Word(0x00, 0x00, 0x00, 0x00)),
                        Block(Word(0x2b, 0x7e, 0x15, 0x16), Word(0x28, 0xae, 0xd2, 0xa6), Word(0xab, 0xf7, 0x15, 0x88), Word(0x09, 0xcf, 0x4f, 0x3c)))
            == Block(Word(0x2b, 0x7e, 0x15, 0x16), Word(0x28, 0xae, 0xd2, 0xa6), Word(0xab, 0xf7, 0x15, 0x88), Word(0x09, 0xcf, 0x4f, 0x3c))
  {
  }

  lemma {:induction false} ZeroCiphered2()
    ensures Round(Round(Block(Word(0x2b, 0x7e, 0x15, 0x16), Word(0x28, 0xae, 0xd2, 0xa6), Word(0xab, 0xf7, 0x15, 0x88), Word(0x09, 0xcf, 0x4f, 0x3c)),
                  Block(Word(0xa0, 0xfa, 0xfe, 0x17), Word(0x88, 0x54, 0x2c, 0xb1), Word(0x23, 0xa3, 0x39, 0x39), Word(0x2a, 0x6c, 0x76, 0x05))),
                  Block(Word(0xf2, 0xc2, 0x95, 0xf2), Word(0x7a, 0x96, 0xb9, 0x43), Word(0x59, 0x35, 0x80, 0x7a), Word(0x73, 0x59, 0xf6, 0x7f)))
            == Block(Word(0x9e, 0x03, 0x85, 0x09), Word(0x44, 0x9c, 0x46, 0x72), Word(0xc3, 0x2b, 0x0a, 0x75), Word(0x38, 0xdd, 0x82, 0xa0))
  {
    assert Round(Block(Word(0x2b, 0x7e, 0x15, 0x16), Word(0x28, 0xae, 0xd2, 0xa6), Word(0xab, 0xf7, 0x15, 0x88), Word(0x09, 0xcf, 0x4f, 0x3c)),
                 Block(Word(0xa0, 0xfa, 0xfe, 0x17), Word(0x88, 0x54, 0x2c, 0xb1), Word(0x23, 0xa3, 0x39, 0x39), Word(0x2a, 0x6c, 0x76, 0x05)))
           == Block(Word(0xdc, 0xd8, 0x7f, 0x6f), Word(0x9b, 0x60, 0xaa, 0x8f), Word(0x1f, 0x01, 0x0f, 0x04), Word(0x57, 0x90, 0xa2, 0xd3));
  }

  lemma {:induction false} ZeroCiphered4()
    ensures Round(Round(Block(Word(0x9e, 0x03, 0x85, 0x09), Word(0x44, 0x9c, 0x46, 0x72), Word(0xc3, 0x2b, 0x0a, 0x75), Word(0x38, 0xdd, 0x82, 0xa0)),
                  Block(Word(0x3d, 0x80, 0x47, 0x7d), Word(0x47, 0x16, 0xfe, 0x3e), Word(0x1e, 0x23, 0x7e, 0x44), Word(0x6d, 0x7a, 0x88, 0x3b))),
                  Block(Word(0xef, 0x44, 0xa5, 0x41), Word(0xa8, 0x52, 0x5b, 0x7f), Word(0xb6, 0x71, 0x25, 0x3b), Word(0xdb, 0x0b, 0xad, 0x00)))
            == Block(Word(0x5c, 0xce, 0xff, 0xfb), Word(0xd9, 0xe1, 0xfe, 0x98), Word(0x9c, 0xd7, 0xdf, 0x39), Word(0x7b, 0x87, 0xe8, 0xa7))
  {
    assert Round(Block(Word(0x9e, 0x03, 0x85, 0x09), Word(0x44, 0x9c, 0x46, 0x72), Word(0xc3, 0x2b, 0x0a, 0x75), Word(0x38, 0xdd, 0x82, 0xa0)),
                 Block(Word(0x3d, 0x80, 0x47, 0x7d), Word(0x47, 0x16, 0xfe, 0x3e), Word(0x1e, 0x23, 0x7e, 0x44), Word(0x6d, 0x7a, 0x88, 0x3b)))
           == Block(Word(0xd5, 0x65, 0x67, 0x02), Word(0x6b, 0xc0, 0x31, 0xf3), Word(0xcd, 0x76, 0x64, 0xe0), Word(0x29, 0xf8, 0xfc, 0x32));
  }

  lemma {:induction false} ZeroCiphered6()
    ensures Round(Round(Block(Word(0x5c, 0xce, 0xff, 0xfb), Word(0xd9, 0xe1, 0xfe, 0x98), Word(0x9c, 0xd7, 0xdf, 0x39), Word(0x7b, 0x87, 0xe8, 0xa7)),
                  Block(Word(0xd4, 0xd1, 0xc6, 0xf8), Word(0x7c, 0x83, 0x9d, 0x87), Word(0xca, 0xf2, 0xb8, 0xbc), Word(0x11, 0xf9, 0x15, 0xbc))),
                  Block(Word(0x6d, 0x88, 0xa3, 0x7a), Word(0x11, 0x0b, 0x3e, 0xfd), Word(0xdb, 0xf9, 0x86, 0x41), Word(0xca, 0x00, 0x93, 0xfd)))
            == Block(Word(0x64, 0x6f, 0x75, 0x29), Word(0xf7, 0x6c, 0xbc, 0x45), Word(0xfd, 0x19, 0x93, 0xa6), Word(0x7e, 0xc5, 0x34, 0xfb))
  {
    assert Round(Block(Word(0x5c, 0xce, 0xff, 0xfb), Word(0xd9, 0xe1, 0xfe, 0x98), Word(0x9c, 0xd7, 0xdf, 0x39), Word(0x7b, 0x87, 0xe8, 0xa7)),
                 Block(Word(0xd4, 0xd1, 0xc6, 0xf8), Word(0x7c, 0x83, 0x9d, 0x87), Word(0xca, 0xf2, 0xb8, 0xbc), Word(0x11, 0xf9, 0x15, 0xbc)))
           == Block(Word(0x91, 0x95, 0xb7, 0xf8), Word(0x90, 0x13, 0x9a, 0x53), Word(0x04, 0x7e, 0x97, 0x48), Word(0x7c, 0x11, 0xe4, 0xcb));
  }

  lemma {:induction false} ZeroCiphered8()
    ensures Round(Round(Block(Word(0x64, 0x6f, 0x75, 0x29), Word(0xf7, 0x6c, 0xbc, 0x45), Word(0xfd, 0x19, 0x93, 0xa6), Word(0x7e, 0xc5, 0x34, 0xfb)),
                  Block(Word(0x4e, 0x54, 0xf7, 0x0e), Word(0x5f, 0x5f, 0xc9, 0xf3), Word(0x84, 0xa6, 0x4f, 0xb2), Word(0x4e, 0xa6, 0xdc, 0x4f))),
                  Block(Word(0xea, 0xd2, 0x73, 0x21), Word(0xb5, 0x8d, 0xba, 0xd2), Word(0x31, 0x2b, 0xf5, 0x60), Word(0x7f, 0x8d, 0x29, 0x2f)))
            == Block(Word(0x0d, 0x76, 0xdd, 0x09), Word(0x64, 0x57, 0x14, 0x48), Word(0x6a, 0x70, 0x96, 0x5f), Word(0x2a, 0x08, 0x88, 0x01))
  {
    assert Round(Block(Word(0x64, 0x6f, 0x75, 0x29), Word(0xf7, 0x6c, 0xbc, 0x45), Word(0xfd, 0x19, 0x93, 0xa6), Word(0x7e, 0xc5, 0x34, 0xfb)),
                 Block(Word(0x4e, 0x54, 0xf7, 0x0e), Word(0x5f, 0x5f, 0xc9, 0xf3), Word(0x84, 0xa6, 0x4f, 0xb2), Word(0x4e, 0xa6, 0xdc, 0x4f)))
           == Block(Word(0xeb, 0xc7, 0x56, 0x59), Word(0x55, 0x09, 0xb1, 0xd6), Word(0x2e, 0x77, 0x2e, 0xa9), Word(0x11, 0x95, 0x21, 0xc4));
  }

  lemma {:induction false} ZeroCiphered10()
    ensures LastRound(Round(Block(Word(0x0d, 0x76, 0xdd, 0x09), Word(0x64, 0x57, 0x14, 0x48), Word(0x6a, 0x70, 0x96, 0x5f), Word(0x2a, 0x08, 0x88, 0x01)),
                  Block(Word(0xac, 0x77, 0x66, 0xf3), Word(0x19, 0xfa, 0xdc, 0x21), Word(0x28, 0xd1, 0x29, 0x41), Word(0x57, 0x5c, 0x00, 0x6e))),
                  Block(Word(0xd0, 0x14, 0xf9, 0xa8), Word(0xc9, 0xee, 0x25, 0x89), Word(0xe1, 0x3f, 0x0c, 0xc8), Word(0xb6, 0x63, 0x0c, 0xa6)))
            == Block(Word(0x7d, 0xf7, 0x6b, 0x0c), Word(0x1a, 0xb8, 0x99, 0xb3), Word(0x3e, 0x42, 0xf0, 0x47), Word(0xb9, 0x1b, 0x54, 0x6f))
  {
    assert Round(Block(Word(0x0d, 0x76, 0xdd, 0x09), Word(0x64, 0x57, 0x14, 0x48), Word(0x6a, 0x70, 0x96, 0x5f), Word(0x2a, 0x08, 0x88, 0x01)),
                 Block(Word(0xac, 0x77, 0x66, 0xf3), Word(0x19, 0xfa, 0xdc, 0x21), Word(0x28, 0xd1, 0x29, 0x41), Word(0x57, 0x5c, 0x00, 0x6e)))
           == Block(Word(0x18, 0xc1, 0x55, 0xa2), Word(0xa9, 0x4d, 0x5e, 0x73), Word(0xef, 0xb9, 0x74, 0x12), Word(0xfb, 0x13, 0x78, 0x1d));
  }

  /** L is the cipher of the zero block. */
  lemma {:induction false} ZeroCiphered()
    ensures Cipher(Expand(KEY), Block(Word(0x00, 0x00, 0x00, 0x00), Word(0x00, 0x00, 0x00, 0x00), Word(0x00, 0x00, 0x00, 0x00), Word(0x00, 0x00, 0x00, 0x00)))
            == Block(Word(0x7d, 0xf7, 0x6b, 0x0c), Word(0x1a, 0xb8, 0x99, 0xb3), Word(0x3e, 0x42, 0xf0, 0x47), Word(0xb9, 0x1b, 0x54, 0x6f))
  {
    hide Cipher, Expand, Round, LastRound, AddRoundKey;
    ZeroCiphered0();
    ZeroCiphered2();
    ZeroCiphered4();
    ZeroCiphered6();
    ZeroCiphered8();
    ZeroCiphered10();
    CipherIs(Block(Word(0x00, 0x00, 0x00, 0x00), Word(0x00, 0x00, 0x00, 0x00), Word(0x00, 0x00, 0x00, 0x00), Word(0x00, 0x00, 0x00, 0x00)),
             Block(Word(0x2b, 0x7e, 0x15, 0x16), Word(0x28, 0xae, 0xd2, 0xa6), Word(0xab, 0xf7, 0x15, 0x88), Word(0x09, 0xcf, 0x4f, 0x3c)),
             Block(Word(0x9e, 0x03, 0x85, 0x09), Word(0x44, 0x9c, 0x46, 0x72), Word(0xc3, 0x2b, 0x0a, 0x75), Word(0x38, 0xdd, 0x82, 0xa0)),
             Block(Word(0x5c, 0xce, 0xff, 0xfb), Word(0xd9, 0xe1, 0xfe, 0x98), Word(0x9c, 0xd7, 0xdf, 0x39), Word(0x7b, 0x87, 0xe8, 0xa7)),
             Block(Word(0x64, 0x6f, 0x75, 0x29), Word(0xf7, 0x6c, 0xbc, 0x45), Word(0xfd, 0x19, 0x93, 0xa6), Word(0x7e, 0xc5, 0x34, 0xfb)),
             Block(Word(0x0d, 0x76, 0xdd, 0x09), Word(0x64, 0x57, 0x14, 0x48), Word(0x6a, 0x70, 0x96, 0x5f), Word(0x2a, 0x08, 0x88, 0x01)),
             Block(Word(0x7d, 0xf7, 0x6b, 0x0c), Word(0x1a, 0xb8, 0x99, 0xb3), Word(0x3e, 0x42, 0xf0, 0x47), Word(0xb9, 0x1b, 0x54, 0x6f)));
  }

  lemma {:induction false} MessageCiphered0()
    ensures AddRoundKey(Block(Word(0x90, 0x2f, 0x68, 0xfa), Word(0x1b, 0x31, 0xac, 0xf0), Word(0x95, 0xb8, 0x9e, 0x9e), Word(0x01, 0xa5, 0xbf, 0xf4)),
                        Block(Word(0x2b, 0x7e, 0x15, 0x16), Word(0x28, 0xae, 0xd2, 0xa6), Word(0xab, 0xf7, 0x15, 0x88), Word(0x09, 0xcf, 0x4f, 0x3c)))
            == Block(Word(0xbb, 0x51, 0x7d, 0xec), Word(0x33, 0x9f, 0x7e, 0x56), Word(0x3e, 0x4f, 0x8b, 0x16), Word(0x08, 0x6a, 0xf0, 0xc8))
  {
  }

  lemma {:induction false} MessageCiphered2()
    ensures Round(Round(Block(Word(0xbb, 0x51, 0x7d, 0xec), Word(0x33, 0x9f, 0x7e, 0x56), Word(0x3e, 0x4f, 0x8b, 0x16), Word(0x08, 0x6a, 0xf0, 0xc8)),
                  Block(Word(0xa0, 0xfa, 0xfe, 0x17), Word(0x88, 0x54, 0x2c, 0xb1), Word(0x23, 0xa3, 0x39, 0x39), Word(0x2a, 0x6c, 0x76, 0x05))),
                  Block(Word(0xf2, 0xc2, 0x95, 0xf2), Word(0x7a, 0x96, 0xb9, 0x43), Word(0x59, 0x35, 0x80, 0x7a), Word(0x73, 0x59, 0xf6, 0x7f)))
            == Block(Word(0x45, 0x9c, 0x5a, 0xe9), Word(0x36, 0xb5, 0xe2, 0xa9), Word(0x5e, 0x8d, 0xbb, 0xd5), Word(0xa4, 0x0d, 0xbd, 0x42))
  {
    assert Round(Block(Word(0xbb, 0x51, 0x7d, 0xec), Word(0x33, 0x9f, 0x7e, 0x56), Word(0x3e, 0x4f, 0x8b, 0x16), Word(0x08, 0x6a, 0xf0, 0xc8)),
                 Block(Word(0xa0, 0xfa, 0xfe, 0x17), Word(0x88, 0x54, 0x2c, 0xb1), Word(0x23, 0xa3, 0x39, 0x39), Word(0x2a, 0x6c, 0x76, 0x05)))
           == Block(Word(0xcc, 0x12, 0x96, 0x1f), Word(0xc0, 0xc5, 0x21, 0x60), Word(0x14, 0xbe, 0xa4, 0x70), Word(0x96, 0xac, 0xa3, 0xf9));
  }

  lemma {:induction false} MessageCiphered4()
    ensures Round(Round(Block(Word(0x45, 0x9c, 0x5a, 0xe9), Word(0x36, 0xb5, 0xe2, 0xa9), Word(0x5e, 0x8d, 0xbb, 0xd5), Word(0xa4, 0x0d, 0xbd, 0x42)),
                  Block(Word(0x3d, 0x80, 0x47, 0x7d), Word(0x47, 0x16, 0xfe, 0x3e), Word(0x1e, 0x23, 0x7e, 0x44), Word(0x6d, 0x7a, 0x88, 0x3b))),
                  Block(Word(0xef, 0x44, 0xa5, 0x41), Word(0xa8, 0x52, 0x5b, 0x7f), Word(0xb6, 0x71, 0x25, 0x3b), Word(0xdb, 0x0b, 0xad, 0x00)))
            == Block(Word(0x4c, 0x59, 0x14, 0xe7), Word(0x84, 0x71, 0x04, 0xbd), Word(0xcd, 0x31, 0x4e, 0x2a), Word(0xad, 0x99, 0xc5, 0x74))
  {
    assert Round(Block(Word(0x45, 0x9c, 0x5a, 0xe9), Word(0x36, 0xb5, 0xe2, 0xa9), Word(0x5e, 0x8d, 0xbb, 0xd5), Word(0xa4, 0x0d, 0xbd, 0x42)),
                 Block(Word(0x3d, 0x80, 0x47, 0x7d), Word(0x47, 0x16, 0xfe, 0x3e), Word(0x1e, 0x23, 0x7e, 0x44), Word(0x6d, 0x7a, 0x88, 0x3b)))
           == Block(Word(0x43, 0x56, 0x47, 0xa8), Word(0xce, 0x39, 0x70, 0x2a), Word(0xa1, 0xc4, 0xf8, 0x78), Word(0x1d, 0x24, 0x31, 0xa0));
  }

  lemma {:induction false} MessageCiphered6()
    ensures Round(Round(Block(Word(0x4c, 0x59, 0x14, 0xe7), Word(0x84, 0x71, 0x04, 0xbd), Word(0xcd, 0x31, 0x4e, 0x2a), Word(0xad, 0x99, 0xc5, 0x74)),
                  Block(Word(0xd4, 0xd1, 0xc6, 0xf8), Word(0x7c, 0x83, 0x9d, 0x87), Word(0xca, 0xf2, 0xb8, 0xbc), Word(0x11, 0xf9, 0x15, 0xbc))),
                  Block(Word(0x6d, 0x88, 0xa3, 0x7a), Word(0x11, 0x0b, 0x3e, 0xfd), Word(0xdb, 0xf9, 0x86, 0x41), Word(0xca, 0x00, 0x93, 0xfd)))
            == Block(Word(0x5b, 0xc2, 0x07, 0x87), Word(0x0b, 0x4a, 0x1d, 0xe2), Word(0x26, 0x8c, 0xc8, 0xe1), Word(0x52, 0xeb, 0xf1, 0x3e))
  {
    assert Round(Block(Word(0x4c, 0x59, 0x14, 0xe7), Word(0x84, 0x71, 0x04, 0xbd), Word(0xcd, 0x31, 0x4e, 0x2a), Word(0xad, 0x99, 0xc5, 0x74)),
                 Block(Word(0xd4, 0xd1, 0xc6, 0xf8), Word(0x7c, 0x83, 0x9d, 0x87), Word(0xca, 0xf2, 0xb8, 0xbc), Word(0x11, 0xf9, 0x15, 0xbc)))
           == Block(Word(0xc5, 0x46, 0xbf, 0x30), Word(0xa2, 0x2c, 0xf5, 0x34), Word(0x02, 0xe7, 0x8a, 0x80), Word(0x71, 0x09, 0x80, 0xf0));
  }

  lemma {:induction false} MessageCiphered8()
    ensures Round(Round(Block(Word(0x5b, 0xc2, 0x07, 0x87), Word(0x0b, 0x4a, 0x1d, 0xe2), Word(0x26, 0x8c, 0xc8, 0xe1), Word(0x52, 0xeb, 0xf1, 0x3e)),
                  Block(Word(0x4e, 0x54, 0xf7, 0x0e), Word(0x5f, 0x5f, 0xc9, 0xf3), Word(0x84, 0xa6, 0x4f, 0xb2), Word(0x4e, 0xa6, 0xdc, 0x4f))),
                  Block(Word(0xea, 0xd2, 0x73, 0x21), Word(0xb5, 0x8d, 0xba, 0xd2), Word(0x31, 0x2b, 0xf5, 0x60), Word(0x7f, 0x8d, 0x29, 0x2f)))
            == Block(Word(0xe7, 0x63, 0x1f, 0x69), Word(0x8b, 0xb8, 0x46, 0xdc), Word(0xda, 0x2c, 0x29, 0x80), Word(0x73, 0x2f, 0x82, 0x41))
  {
    assert Round(Block(Word(0x5b, 0xc2, 0x07, 0x87), Word(0x0b, 0x4a, 0x1d, 0xe2), Word(0x26, 0x8c, 0xc8, 0xe1), Word(0x52, 0xeb, 0xf1, 0x3e)),
                 Block(Word(0x4e, 0x54, 0xf7, 0x0e), Word(0x5f, 0x5f, 0xc9, 0xf3), Word(0x84, 0xa6, 0x4f, 0xb2), Word(0x4e, 0xa6, 0xdc, 0x4f)))
           == Block(Word(0x07, 0x4b, 0x1e, 0x04), Word(0x13, 0x53, 0xe6, 0x65), Word(0x0c, 0x54, 0x73, 0xb7), Word(0x7d, 0xe3, 0xb9, 0x25));
  }

  lemma {:induction false} MessageCiphered10()
    ensures LastRound(Round(Block(Word(0xe7, 0x63, 0x1f, 0x69), Word(0x8b, 0xb8, 0x46, 0xdc), Word(0xda, 0x2c, 0x29, 0x80), Word(0x73, 0x2f, 0x82, 0x41)),
                  Block(Word(0xac, 0x77, 0x66, 0xf3), Word(0x19, 0xfa, 0xdc, 0x21), Word(0x28, 0xd1, 0x29, 0x41), Word(0x57, 0x5c, 0x00, 0x6e))),
                  Block(Word(0xd0, 0x14, 0xf9, 0xa8), Word(0xc9, 0xee, 0x25, 0x89), Word(0xe1, 0x3f, 0x0c, 0xc8), Word(0xb6, 0x63, 0x0c, 0xa6)))
            == Block(Word(0x07, 0x0a, 0x16, 0xb4), Word(0x6b, 0x4d, 0x41, 0x44), Word(0xf7, 0x9b, 0xdd, 0x9d), Word(0xd0, 0x4a, 0x28, 0x7c))
  {
    assert Round(Block(Word(0xe7, 0x63, 0x1f, 0x69), Word(0x8b, 0xb8, 0x46, 0xdc), Word(0xda, 0x2c, 0x29, 0x80), Word(0x73, 0x2f, 0x82, 0x41)),
                 Block(Word(0xac, 0x77, 0x66, 0xf3), Word(0x19, 0xfa, 0xdc, 0x21), Word(0x28, 0xd1, 0x29, 0x41), Word(0x57, 0x5c, 0x00, 0x6e)))
           == Block(Word(0x0d, 0x4c, 0x51, 0x80), Word(0x1a, 0xe9, 0xa6, 0xed), Word(0xff, 0x71, 0x61, 0x7a), Word(0xd3, 0x1d, 0x8c, 0xc4));
  }

  lemma {:induction false} MessageCiphered()
    ensures Cipher(Expand(KEY), Block(Word(0x90, 0x2f, 0x68, 0xfa), Word(0x1b, 0x31, 0xac, 0xf0), Word(0x95, 0xb8, 0x9e, 0x9e), Word(0x01, 0xa5, 0xbf, 0xf4)))
            == Block(Word(0x07, 0x0a, 0x16, 0xb4), Word(0x6b, 0x4d, 0x41, 0x44), Word(0xf7, 0x9b, 0xdd, 0x9d), Word(0xd0, 0x4a, 0x28, 0x7c))
  {
    hide Cipher, Expand, Round, LastRound, AddRoundKey;
    MessageCiphered0();
    MessageCiphered2();
    MessageCiphered4();
    MessageCiphered6();
    MessageCiphered8();
    MessageCiphered10();
    CipherIs(Block(Word(0x90, 0x2f, 0x68, 0xfa), Word(0x1b, 0x31, 0xac, 0xf0), Word(0x95, 0xb8, 0x9e, 0x9e), Word(0x01, 0xa5, 0xbf, 0xf4)),
             Block(Word(0xbb, 0x51, 0x7d, 0xec), Word(0x33, 0x9f, 0x7e, 0x56), Word(0x3e, 0x4f, 0x8b, 0x16), Word(0x08, 0x6a, 0xf0, 0xc8)),
             Block(Word(0x45, 0x9c, 0x5a, 0xe9), Word(0x36, 0xb5, 0xe2, 0xa9), Word(0x5e, 0x8d, 0xbb, 0xd5), Word(0xa4, 0x0d, 0xbd, 0x42)),
             Block(Word(0x4c, 0x59, 0x14, 0xe7), Word(0x84, 0x71, 0x04, 0xbd), Word(0xcd, 0x31, 0x4e, 0x2a), Word(0xad, 0x99, 0xc5, 0x74)),
             Block(Word(0x5b, 0xc2, 0x07, 0x87), Word(0x0b, 0x4a, 0x1d, 0xe2), Word(0x26, 0x8c, 0xc8, 0xe1), Word(0x52, 0xeb, 0xf1, 0x3e)),
             Block(Word(0xe7, 0x63, 0x1f, 0x69), Word(0x8b, 0xb8, 0x46, 0xdc), Word(0xda, 0x2c, 0x29, 0x80), Word(0x73, 0x2f, 0x82, 0x41)),
             Block(Word(0x07, 0x0a, 0x16, 0xb4), Word(0x6b, 0x4d, 0x41, 0x44), Word(0xf7, 0x9b, 0xdd, 0x9d), Word(0xd0, 0x4a, 0x28, 0x7c)));
  }

  // ---------------------------------------------------------------- subkeys and codes

  lemma {:induction false} Subkeys()
    ensures L(Expand(KEY)) == SUBKEY_BASE && K1(Expand(KEY)) == SUBKEY_ONE && K2(Expand(KEY)) == SUBKEY_TWO
  {
    hide Cipher, Expand, Double;
    ZeroCiphered();
    Doubles();
  }

  lemma {:induction false} Doubles()
    ensures Double(SUBKEY_BASE) == SUBKEY_ONE && Double(SUBKEY_ONE) == SUBKEY_TWO
  {
    hide Carried;
    FirstDouble();
    SecondDouble();
  }

  lemma {:induction false} FirstDouble()
    ensures Double(SUBKEY_BASE) == SUBKEY_ONE
  {
    assert Carried(0x7d, HighBit(0xf7)) == 0xfb;
    assert Carried(0xf7, HighBit(0x6b)) == 0xee;
    assert Carried(0x6b, HighBit(0x0c)) == 0xd6;
    assert Carried(0x0c, HighBit(0x1a)) == 0x18;
    assert Carried(0x1a, HighBit(0xb8)) == 0x35;
    assert Carried(0xb8, HighBit(0x99)) == 0x71;
    assert Carried(0x99, HighBit(0xb3)) == 0x33;
    assert Carried(0xb3, HighBit(0x3e)) == 0x66;
    assert Carried(0x3e, HighBit(0x42)) == 0x7c;
    assert Carried(0x42, HighBit(0xf0)) == 0x85;
    assert Carried(0xf0, HighBit(0x47)) == 0xe0;
    assert Carried(0x47, HighBit(0xb9)) == 0x8f;
    assert Carried(0xb9, HighBit(0x1b)) == 0x72;
    assert Carried(0x1b, HighBit(0x54)) == 0x36;
    assert Carried(0x54, HighBit(0x6f)) == 0xa8;
  }

  lemma {:induction false} SecondDouble()
    ensures Double(SUBKEY_ONE) == SUBKEY_TWO
  {
    assert Carried(0xfb, HighBit(0xee)) == 0xf7;
    assert Carried(0xee, HighBit(0xd6)) == 0xdd;
    assert Carried(0xd6, HighBit(0x18)) == 0xac;
    assert Carried(0x18, HighBit(0x35)) == 0x30;
    assert Carried(0x35, HighBit(0x71)) == 0x6a;
    assert Carried(0x71, HighBit(0x33)) == 0xe2;
    assert Carried(0x33, HighBit(0x66)) == 0x66;
    assert Carried(0x66, HighBit(0x7c)) == 0xcc;
    assert Carried(0x7c, HighBit(0x85)) == 0xf9;
    assert Carried(0x85, HighBit(0xe0)) == 0x0b;
    assert Carried(0xe0, HighBit(0x8f)) == 0xc1;
    assert Carried(0x8f, HighBit(0x72)) == 0x1e;
    assert Carried(0x72, HighBit(0x36)) == 0xe4;
    assert Carried(0x36, HighBit(0xa8)) == 0x6d;
    assert Carried(0xa8, HighBit(0xde)) == 0x51;
  }

  /** Example 2: a message of one block. */
  lemma {:induction false} OneBlockMessage()
    ensures Mac(Expand(KEY), MESSAGE) == Block(Word(0x07, 0x0a, 0x16, 0xb4), Word(0x6b, 0x4d, 0x41, 0x44), Word(0xf7, 0x9b, 0xdd, 0x9d), Word(0xd0, 0x4a, 0x28, 0x7c))
  {
    hide Cipher, Expand, K1, K2;
    Subkeys();
    MessageCiphered();
  }
}
