/**
  * AES-128 as a function of a key schedule and a block: the key schedule, the round transformations, the cipher and
  * the inverse cipher of aes.c, with the proof that the two ciphers undo each other in either order.
  */
module Aes {
  import opened AesBytes

  /** The 16 bytes of a block, column by column; the array state[i][j] holds row j of column i. */
  datatype Block = Block(c0: Word, c1: Word, c2: Word, c3: Word)

  /** Section 5.2 of FIPS 197: 44 words for AES-128. */
  const KEY_WORDS := 44

  const ROUNDS := 10

  // ---------------------------------------------------------------- round transformations

  function SubWord(w: Word): Word {
    Word(Sbox(w.a), Sbox(w.b), Sbox(w.c), Sbox(w.d))
  }

  function InvSubWord(w: Word): Word {
    Word(InvSbox(w.a), InvSbox(w.b), InvSbox(w.c), InvSbox(w.d))
  }

  function SubBytes(s: Block): Block {
    Block(SubWord(s.c0), SubWord(s.c1), SubWord(s.c2), SubWord(s.c3))
  }

  function InvSubBytes(s: Block): Block {
    Block(InvSubWord(s.c0), InvSubWord(s.c1), InvSubWord(s.c2), InvSubWord(s.c3))
  }

  function ShiftRows(s: Block): Block {
    Block(Word(s.c0.a, s.c1.b, s.c2.c, s.c3.d), Word(s.c1.a, s.c2.b, s.c3.c, s.c0.d),
          Word(s.c2.a, s.c3.b, s.c0.c, s.c1.d), Word(s.c3.a, s.c0.b, s.c1.c, s.c2.d))
  }

  function InvShiftRows(s: Block): Block {
    Block(Word(s.c0.a, s.c3.b, s.c2.c, s.c1.d), Word(s.c1.a, s.c0.b, s.c3.c, s.c2.d),
          Word(s.c2.a, s.c1.b, s.c0.c, s.c3.d), Word(s.c3.a, s.c2.b, s.c1.c, s.c0.d))
  }

  function MixColumns(s: Block): Block {
    Block(MixColumn(s.c0), MixColumn(s.c1), MixColumn(s.c2), MixColumn(s.c3))
  }

  function InvMixColumns(s: Block): Block {
    Block(InvMixColumn(s.c0), InvMixColumn(s.c1), InvMixColumn(s.c2), InvMixColumn(s.c3))
  }

  function AddRoundKey(s: Block, k: Block): Block {
    Block(Xor(s.c0, k.c0), Xor(s.c1, k.c1), Xor(s.c2, k.c2), Xor(s.c3, k.c3))
  }

  /** The byte in a row and a column. */
  function Cell(s: Block, row: nat, column: nat): bv8
    requires row < 4 && column < 4
  {
    var w := if column == 0 then s.c0 else if column == 1 then s.c1 else if column == 2 then s.c2 else s.c3;
    if row == 0 then w.a else if row == 1 then w.b else if row == 2 then w.c else w.d
  }

  /** Section 5.1.2 of FIPS 197: row r moves left by r columns; the inverse moves it right. */
  lemma {:induction false} ShiftRowsMoves(s: Block, row: nat, column: nat)
    requires row < 4 && column < 4
    ensures Cell(ShiftRows(s), row, column) == Cell(s, row, (column + row) % 4)
    ensures Cell(InvShiftRows(s), row, (column + row) % 4) == Cell(s, row, column)
  {
  }

  /** Row 1, 2 or 3 of a block, and a block with such a row replaced. */
  function Row1(s: Block): Word {
    Word(s.c0.b, s.c1.b, s.c2.b, s.c3.b)
  }

  function Row2(s: Block): Word {
    Word(s.c0.c, s.c1.c, s.c2.c, s.c3.c)
  }

  function Row3(s: Block): Word {
    Word(s.c0.d, s.c1.d, s.c2.d, s.c3.d)
  }

  function WithRow1(s: Block, r: Word): Block {
    Block(s.c0.(b := r.a), s.c1.(b := r.b), s.c2.(b := r.c), s.c3.(b := r.d))
  }

  function WithRow2(s: Block, r: Word): Block {
    Block(s.c0.(c := r.a), s.c1.(c := r.b), s.c2.(c := r.c), s.c3.(c := r.d))
  }

  function WithRow3(s: Block, r: Word): Block {
    Block(s.c0.(d := r.a), s.c1.(d := r.b), s.c2.(d := r.c), s.c3.(d := r.d))
  }

  lemma {:induction false} SubWordInverse(w: Word)
    ensures InvSubWord(SubWord(w)) == w
    ensures SubWord(InvSubWord(w)) == w
  {
    hide Sbox, InvSbox;
    InvSboxUndoes(w.a);
    InvSboxUndoes(w.b);
    InvSboxUndoes(w.c);
    InvSboxUndoes(w.d);
    SboxUndoes(w.a);
    SboxUndoes(w.b);
    SboxUndoes(w.c);
    SboxUndoes(w.d);
  }

  lemma {:induction false} SubBytesInverse(s: Block)
    ensures InvSubBytes(SubBytes(s)) == s
    ensures SubBytes(InvSubBytes(s)) == s
  {
    hide SubWord, InvSubWord;
    SubWordInverse(s.c0);
    SubWordInverse(s.c1);
    SubWordInverse(s.c2);
    SubWordInverse(s.c3);
  }

  lemma {:induction false} ShiftRowsInverse(s: Block)
    ensures InvShiftRows(ShiftRows(s)) == s
    ensures ShiftRows(InvShiftRows(s)) == s
  {
  }

  lemma {:induction false} MixColumnsInverse(s: Block)
    ensures InvMixColumns(MixColumns(s)) == s
    ensures MixColumns(InvMixColumns(s)) == s
  {
    hide MixColumn, InvMixColumn;
    ColumnInverse(s.c0);
    ColumnInverse(s.c1);
    ColumnInverse(s.c2);
    ColumnInverse(s.c3);
  }

  lemma {:induction false} XorTwice(w: Word, k: Word)
    ensures Xor(Xor(w, k), k) == w
  {
    hide Add;
    AddTwice(w.a, k.a);
    AddTwice(w.b, k.b);
    AddTwice(w.c, k.c);
    AddTwice(w.d, k.d);
  }

  lemma {:induction false} AddRoundKeyInverse(s: Block, k: Block)
    ensures AddRoundKey(AddRoundKey(s, k), k) == s
  {
    hide Xor;
    XorTwice(s.c0, k.c0);
    XorTwice(s.c1, k.c1);
    XorTwice(s.c2, k.c2);
    XorTwice(s.c3, k.c3);
  }

  // ---------------------------------------------------------------- the ciphers

  /** An expanded key: the words of the array RoundKey. */
  type Schedule = w: seq<Word> | |w| == KEY_WORDS witness seq(KEY_WORDS, _ => Word(0, 0, 0, 0))

  function RoundKey(w: Schedule, round: nat): Block
    requires round <= ROUNDS
  {
    Block(w[4 * round], w[4 * round + 1], w[4 * round + 2], w[4 * round + 3])
  }

  /** The state after the first key addition and n full rounds. */
  function Rounds(w: Schedule, n: nat, s: Block): Block
    requires n < ROUNDS
  {
    if n == 0 then AddRoundKey(s, RoundKey(w, 0))
    else AddRoundKey(MixColumns(ShiftRows(SubBytes(Rounds(w, n - 1, s)))), RoundKey(w, n))
  }

  /** Section 5.1 of FIPS 197: the last round has no MixColumns. */
  function Cipher(w: Schedule, s: Block): Block {
    AddRoundKey(ShiftRows(SubBytes(Rounds(w, ROUNDS - 1, s))), RoundKey(w, ROUNDS))
  }

  /** The state after the first key addition and the inverse rounds 9 down to n + 1. */
  function InvRounds(w: Schedule, n: nat, s: Block): Block
    requires n < ROUNDS
    decreases ROUNDS - n
  {
    if n == ROUNDS - 1 then AddRoundKey(s, RoundKey(w, ROUNDS))
    else InvMixColumns(AddRoundKey(InvSubBytes(InvShiftRows(InvRounds(w, n + 1, s))), RoundKey(w, n + 1)))
  }

  /** Section 5.3 of FIPS 197. */
  function InvCipher(w: Schedule, s: Block): Block {
    AddRoundKey(InvSubBytes(InvShiftRows(InvRounds(w, 0, s))), RoundKey(w, 0))
  }

  /** Before its round n is undone, the inverse cipher holds the middle of the cipher's round n + 1. */
  lemma {:induction false} InvRoundsMeetRounds(w: Schedule, n: nat, s: Block)
    requires n < ROUNDS
    ensures InvRounds(w, n, Cipher(w, s)) == ShiftRows(SubBytes(Rounds(w, n, s)))
    decreases ROUNDS - n
  {
    hide SubBytes, InvSubBytes, ShiftRows, InvShiftRows, MixColumns, InvMixColumns, AddRoundKey, RoundKey;
    if n == ROUNDS - 1 {
      AddRoundKeyInverse(ShiftRows(SubBytes(Rounds(w, n, s))), RoundKey(w, ROUNDS));
    } else {
      InvRoundsMeetRounds(w, n + 1, s);
      var m := ShiftRows(SubBytes(Rounds(w, n, s)));
      ShiftRowsInverse(SubBytes(Rounds(w, n + 1, s)));
      SubBytesInverse(Rounds(w, n + 1, s));
      AddRoundKeyInverse(MixColumns(m), RoundKey(w, n + 1));
      MixColumnsInverse(m);
    }
  }

  /** InvCipher undoes Cipher, for every key schedule and every block. */
  lemma {:induction false} InvCipherUndoes(w: Schedule, s: Block)
    ensures InvCipher(w, Cipher(w, s)) == s
  {
    hide SubBytes, InvSubBytes, ShiftRows, InvShiftRows, MixColumns, InvMixColumns, AddRoundKey, RoundKey, Cipher, InvRounds;
    InvRoundsMeetRounds(w, 0, s);
    ShiftRowsInverse(SubBytes(Rounds(w, 0, s)));
    SubBytesInverse(Rounds(w, 0, s));
    AddRoundKeyInverse(s, RoundKey(w, 0));
  }

  /** After n rounds on an inverse-ciphered block, the cipher holds what the inverse cipher had before round n. */
  lemma {:induction false} RoundsMeetInvRounds(w: Schedule, n: nat, s: Block)
    requires n < ROUNDS
    ensures Rounds(w, n, InvCipher(w, s)) == InvSubBytes(InvShiftRows(InvRounds(w, n, s)))
  {
    hide SubBytes, InvSubBytes, ShiftRows, InvShiftRows, MixColumns, InvMixColumns, AddRoundKey, RoundKey;
    if n == 0 {
      AddRoundKeyInverse(InvSubBytes(InvShiftRows(InvRounds(w, 0, s))), RoundKey(w, 0));
    } else {
      RoundsMeetInvRounds(w, n - 1, s);
      var m := InvSubBytes(InvShiftRows(InvRounds(w, n, s)));
      SubBytesInverse(InvShiftRows(InvRounds(w, n - 1, s)));
      ShiftRowsInverse(InvRounds(w, n - 1, s));
      MixColumnsInverse(AddRoundKey(m, RoundKey(w, n)));
      AddRoundKeyInverse(m, RoundKey(w, n));
    }
  }

  /** Cipher undoes InvCipher, as the join-accept message needs. */
  lemma {:induction false} CipherUndoes(w: Schedule, s: Block)
    ensures Cipher(w, InvCipher(w, s)) == s
  {
    hide SubBytes, InvSubBytes, ShiftRows, InvShiftRows, MixColumns, InvMixColumns, AddRoundKey, RoundKey, InvCipher, Rounds;
    RoundsMeetInvRounds(w, ROUNDS - 1, s);
    SubBytesInverse(InvShiftRows(InvRounds(w, ROUNDS - 1, s)));
    ShiftRowsInverse(InvRounds(w, ROUNDS - 1, s));
    AddRoundKeyInverse(s, RoundKey(w, ROUNDS));
  }

  // ---------------------------------------------------------------- the key schedule

  /** The round constants, one byte each. */
  const RCON: seq<bv8> := [0x8d, 0x01, 0x02, 0x04, 0x08, 0x10, 0x20, 0x40, 0x80, 0x1b, 0x36]

  /** Rcon[i] is x to the power i - 1 in the field: 1 doubled i - 1 times. */
  function Doubled(n: nat): bv8 {
    if n == 0 then 1 else Xtime(Doubled(n - 1))
  }

  lemma {:induction false} RconDoubles(i: nat)
    requires 1 <= i <= ROUNDS
    ensures RCON[i] == Doubled(i - 1)
  {
    if i > 1 {
      RconDoubles(i - 1);
    }
  }

  function KeyWord(key: Block, i: nat): Word
    requires i < KEY_WORDS
  {
    if i == 0 then key.c0 else if i == 1 then key.c1 else if i == 2 then key.c2 else if i == 3 then key.c3
    else Xor(KeyWord(key, i - 4), Temp(KeyWord(key, i - 1), i))
  }

  /** What word i is made of besides word i - 4. */
  function Temp(previous: Word, i: nat): Word
    requires 4 <= i < KEY_WORDS
  {
    if i % 4 == 0 then Xor(SubWord(Rotate(previous)), Word(RCON[i / 4], 0, 0, 0)) else previous
  }

  /** Section 5.2 of FIPS 197. */
  function Expand(key: Block): Schedule {
    seq(KEY_WORDS, i requires 0 <= i < KEY_WORDS => KeyWord(key, i))
  }

  /** Four consecutive words fix the four before them, so a round key leads back to the key. */
  lemma {:induction false} WordBefore(key: Block, i: nat)
    requires 4 <= i < KEY_WORDS
    ensures KeyWord(key, i - 4) == Xor(KeyWord(key, i), Temp(KeyWord(key, i - 1), i))
  {
    hide Xor, Temp;
    XorTwice(KeyWord(key, i - 4), Temp(KeyWord(key, i - 1), i));
  }

  /** Two keys with the same round key are the same key: expansion loses nothing in any round. */
  lemma {:induction false} RoundKeyFixesKey(key: Block, other: Block, round: nat)
    requires round <= ROUNDS
    requires RoundKey(Expand(key), round) == RoundKey(Expand(other), round)
    ensures key == other
  {
    hide Xor, Temp;
    if round > 0 {
      SameWordBefore(key, other, round, 0);
      SameWordBefore(key, other, round, 1);
      SameWordBefore(key, other, round, 2);
      SameWordBefore(key, other, round, 3);
      RoundKeyFixesKey(key, other, round - 1);
    }
  }

  lemma {:induction false} SameWordBefore(key: Block, other: Block, round: nat, j: nat)
    requires 1 <= round <= ROUNDS && j < 4
    requires RoundKey(Expand(key), round) == RoundKey(Expand(other), round)
    ensures KeyWord(key, 4 * round + j - 4) == KeyWord(other, 4 * round + j - 4)
    decreases if j == 0 then 1 else 0
  {
    hide Xor, Temp, KeyWord;
    var i := 4 * round + j;
    WordBefore(key, i);
    WordBefore(other, i);
    if j == 0 {
      SameWordBefore(key, other, round, 3);
    }
  }
}
