/**
  * aes.c as it runs: the round functions rewrite a 16-byte window of a buffer in place, the key expansion fills
  * the array of round keys, and the entry points copy a block and transform it where it lies. Each method is
  * tied to the function of module Aes it computes, and leaves every byte outside its window alone.
  */
module AesState {
  import opened AesBytes
  import Aes
  import Cbc

  const BLOCK_BYTES := 16
  const SCHEDULE_BYTES := 176

  function WordAt(s: seq<bv8>, p: nat): Word
    requires p + 4 <= |s|
  {
    Word(s[p], s[p + 1], s[p + 2], s[p + 3])
  }

  function BlockAt(s: seq<bv8>, p: nat): Aes.Block
    requires p + BLOCK_BYTES <= |s|
  {
    Aes.Block(WordAt(s, p), WordAt(s, p + 4), WordAt(s, p + 8), WordAt(s, p + 12))
  }

  /** s and t differ at most in the 16 bytes from p. */
  predicate SameOutside(s: seq<bv8>, t: seq<bv8>, p: nat) {
    |s| == |t| && forall k :: 0 <= k < |s| && !(p <= k < p + BLOCK_BYTES) ==> t[k] == s[k]
  }

  /** t is s with the table applied to the rows below i and to the first j columns of row i. */
  predicate Substituted(s: seq<bv8>, t: seq<bv8>, table: bv8 -> bv8, p: nat, i: nat, j: nat) {
    |s| == |t| &&
    forall k :: 0 <= k < |s| ==> t[k] == if p <= k < p + 16 && Done(k - p, i, j) then table(s[k]) else s[k]
  }

  predicate Done(k: nat, i: nat, j: nat) {
    k % 4 < i || (k % 4 == i && k / 4 < j)
  }

  lemma {:induction false} NothingSubstituted(s: seq<bv8>, table: bv8 -> bv8, p: nat)
    ensures Substituted(s, s, table, p, 0, 0)
  {
  }

  lemma {:induction false} SubstitutedStep(s: seq<bv8>, t: seq<bv8>, table: bv8 -> bv8, p: nat, i: nat, j: nat)
    requires p + BLOCK_BYTES <= |s| == |t| && i < 4 && j < 4 && Substituted(s, t, table, p, i, j)
    ensures Substituted(s, t[p + 4 * j + i := table(t[p + 4 * j + i])], table, p, i, j + 1)
  {
    DoneAdvances(i, j);
  }

  lemma {:induction false} DoneAdvances(i: nat, j: nat)
    requires i < 4 && j < 4
    ensures !Done(4 * j + i, i, j)
    ensures forall k | 0 <= k < BLOCK_BYTES :: Done(k, i, j + 1) == (Done(k, i, j) || k == 4 * j + i)
  {
  }

  lemma {:induction false} SubstitutedRow(s: seq<bv8>, t: seq<bv8>, table: bv8 -> bv8, p: nat, i: nat)
    requires Substituted(s, t, table, p, i, 4) && i < 4
    ensures Substituted(s, t, table, p, i + 1, 0)
  {
    forall k | 0 <= k < BLOCK_BYTES
      ensures Done(k, i, 4) == Done(k, i + 1, 0)
    {
    }
  }

  lemma {:induction false} SubstitutedAll(s: seq<bv8>, t: seq<bv8>, table: bv8 -> bv8, p: nat)
    requires p + BLOCK_BYTES <= |s| == |t| && Substituted(s, t, table, p, 4, 0)
    ensures SameOutside(s, t, p)
    ensures forall k | p <= k < p + BLOCK_BYTES :: t[k] == table(s[k])
  {
  }

  /** t is s with the first n bytes of the window added to those of the key. */
  predicate KeyAdded(s: seq<bv8>, t: seq<bv8>, key: seq<bv8>, p: nat, n: nat)
    requires |key| == BLOCK_BYTES
  {
    |s| == |t| &&
    forall k :: 0 <= k < |s| ==> t[k] == if p <= k < p + 16 && k - p < n then Add(s[k], key[k - p]) else s[k]
  }

  /** t is s with f applied to its first n columns. */
  predicate Mixed(s: seq<bv8>, t: seq<bv8>, f: Word -> Word, p: nat, n: nat)
    requires p + BLOCK_BYTES <= |s|
  {
    SameOutside(s, t, p) &&
    WordAt(t, p) == (if 0 < n then f(WordAt(s, p)) else WordAt(s, p)) &&
    WordAt(t, p + 4) == (if 1 < n then f(WordAt(s, p + 4)) else WordAt(s, p + 4)) &&
    WordAt(t, p + 8) == (if 2 < n then f(WordAt(s, p + 8)) else WordAt(s, p + 8)) &&
    WordAt(t, p + 12) == (if 3 < n then f(WordAt(s, p + 12)) else WordAt(s, p + 12))
  }

  /** From t to u only the word at p changes. */
  predicate OneWord(t: seq<bv8>, u: seq<bv8>, p: nat) {
    p + 4 <= |t| == |u| && forall k | 0 <= k < |t| :: k < p || p + 4 <= k ==> u[k] == t[k]
  }

  /** The words of the first n * 4 bytes are those of the expanded key. */
  predicate Expanded(bytes: seq<bv8>, key: Aes.Block, n: nat)
    requires n <= Aes.KEY_WORDS && |bytes| == SCHEDULE_BYTES
  {
    forall i: nat | i < n :: WordAt(bytes, 4 * i) == Aes.KeyWord(key, i)
  }

  function ScheduleOf(bytes: seq<bv8>): Aes.Schedule
    requires |bytes| == SCHEDULE_BYTES
  {
    seq(Aes.KEY_WORDS, i requires 0 <= i < Aes.KEY_WORDS => WordAt(bytes, 4 * i))
  }

  lemma {:induction false} ExpandedSchedule(bytes: seq<bv8>, key: Aes.Block)
    requires |bytes| == SCHEDULE_BYTES && Expanded(bytes, key, Aes.KEY_WORDS)
    ensures ScheduleOf(bytes) == Aes.Expand(key)
  {
    hide Aes.KeyWord;
    forall i: nat | i < Aes.KEY_WORDS
      ensures ScheduleOf(bytes)[i] == Aes.Expand(key)[i]
    {
      assert WordAt(bytes, 4 * i) == Aes.KeyWord(key, i);
    }
  }

  lemma {:induction false} SameOutsideChain(s: seq<bv8>, t: seq<bv8>, u: seq<bv8>, p: nat)
    requires SameOutside(s, t, p) && SameOutside(t, u, p)
    ensures SameOutside(s, u, p)
  {
  }

  lemma {:induction false} MixedStart(s: seq<bv8>, f: Word -> Word, p: nat)
    requires p + BLOCK_BYTES <= |s|
    ensures Mixed(s, s, f, p, 0)
  {
  }

  lemma {:induction false} MixedLength(s: seq<bv8>, t: seq<bv8>, f: Word -> Word, p: nat, n: nat)
    requires p + BLOCK_BYTES <= |s| && Mixed(s, t, f, p, n)
    ensures |t| == |s|
  {
  }

  lemma {:induction false} MixedEnd(s: seq<bv8>, t: seq<bv8>, f: Word -> Word, p: nat)
    requires p + BLOCK_BYTES <= |s| && Mixed(s, t, f, p, 4)
    ensures SameOutside(s, t, p)
    ensures BlockAt(t, p) == Aes.Block(f(WordAt(s, p)), f(WordAt(s, p + 4)), f(WordAt(s, p + 8)), f(WordAt(s, p + 12)))
  {
    hide WordAt;
  }

  /** Replacing column n keeps Mixed. */
  lemma {:induction false} MixedStep(s: seq<bv8>, t: seq<bv8>, u: seq<bv8>, f: Word -> Word, p: nat, n: nat)
    requires p + BLOCK_BYTES <= |s| && n < 4
    requires Mixed(s, t, f, p, n) && |u| == |t| && OneWord(t, u, p + 4 * n)
    requires WordAt(u, p + 4 * n) == f(WordAt(t, p + 4 * n))
    ensures Mixed(s, u, f, p, n + 1)
  {
  }

  /** The word at a position, and what stands before it. */
  lemma {:induction false} WrittenWord(s: seq<bv8>, t: seq<bv8>, p: nat, w: Word)
    requires p + 4 <= |s| == |t| && t == s[p := w.a][p + 1 := w.b][p + 2 := w.c][p + 3 := w.d]
    ensures t[..p] == s[..p] && WordAt(t, p) == w
  {
  }

  /** Writing word n after the first n words keeps them. */
  lemma {:induction false} ExpandedStep(s: seq<bv8>, t: seq<bv8>, key: Aes.Block, n: nat)
    requires n < Aes.KEY_WORDS && |s| == |t| == SCHEDULE_BYTES
    requires Expanded(s, key, n)
    requires t[..4 * n] == s[..4 * n] && WordAt(t, 4 * n) == Aes.KeyWord(key, n)
    ensures Expanded(t, key, n + 1)
  {
    hide Aes.KeyWord;
    forall i: nat | i < n + 1
      ensures WordAt(t, 4 * i) == Aes.KeyWord(key, i)
    {
      if i < n {
        assert WordAt(s, 4 * i) == Aes.KeyWord(key, i);
        SameWord(s, t, n, i);
      }
    }
  }

  lemma {:induction false} SameWord(s: seq<bv8>, t: seq<bv8>, n: nat, i: nat)
    requires i < n && 4 * n <= |s| && |s| == |t|
    requires t[..4 * n] == s[..4 * n]
    ensures WordAt(t, 4 * i) == WordAt(s, 4 * i)
  {
    forall k | 0 <= k < 4 * n
      ensures t[k] == s[k]
    {
      assert t[..4 * n][k] == s[..4 * n][k];
    }
  }

  lemma {:induction false} ExpandedWord(s: seq<bv8>, key: Aes.Block, n: nat, i: nat)
    requires i < n <= Aes.KEY_WORDS && |s| == SCHEDULE_BYTES && Expanded(s, key, n)
    ensures WordAt(s, 4 * i) == Aes.KeyWord(key, i)
  {
    hide Aes.KeyWord;
  }

  lemma {:induction false} NothingExpanded(s: seq<bv8>, key: Aes.Block)
    requires |s| == SCHEDULE_BYTES
    ensures Expanded(s, key, 0)
  {
  }

  /** The first four words are the key. */
  lemma {:induction false} FirstWords(key: seq<bv8>, i: nat)
    requires |key| >= BLOCK_BYTES && i < 4
    ensures Aes.KeyWord(BlockAt(key, 0), i) == WordAt(key, 4 * i)
  {
  }

  lemma {:induction false} NextWord(key: Aes.Block, i: nat)
    requires 4 <= i < Aes.KEY_WORDS
    ensures Aes.KeyWord(key, i) == Xor(Aes.KeyWord(key, i - 4), Aes.Temp(Aes.KeyWord(key, i - 1), i))
    ensures Aes.Temp(Aes.KeyWord(key, i - 1), i) ==
            if i % 4 == 0 then
              var w := Aes.SubWord(Rotate(Aes.KeyWord(key, i - 1)));
              w.(a := Add(w.a, Aes.RCON[i / 4]))
            else
              Aes.KeyWord(key, i - 1)
  {
    hide Add, Aes.SubWord;
    var w := Aes.SubWord(Rotate(Aes.KeyWord(key, i - 1)));
    AddZero(w.b);
    AddZero(w.c);
    AddZero(w.d);
  }

  lemma {:induction false} ShiftRow1Moves(s: seq<bv8>, p: nat)
    requires p + BLOCK_BYTES <= |s|
    ensures SameOutside(s, ShiftRow1Bytes(s, p), p)
    ensures BlockAt(ShiftRow1Bytes(s, p), p) == Aes.WithRow1(BlockAt(s, p), Rotate(Aes.Row1(BlockAt(s, p))))
  {
  }

  function ShiftRow1Bytes(s: seq<bv8>, p: nat): seq<bv8>
    requires p + BLOCK_BYTES <= |s|
  {
    s[p + 1 := s[p + 5]][p + 5 := s[p + 9]][p + 9 := s[p + 13]][p + 13 := s[p + 1]]
  }

  lemma {:induction false} ShiftRow2Moves(s: seq<bv8>, p: nat)
    requires p + BLOCK_BYTES <= |s|
    ensures SameOutside(s, ShiftRow2Bytes(s, p), p)
    ensures BlockAt(ShiftRow2Bytes(s, p), p) == Aes.WithRow2(BlockAt(s, p), Rotate(Rotate(Aes.Row2(BlockAt(s, p)))))
  {
  }

  function ShiftRow2Bytes(s: seq<bv8>, p: nat): seq<bv8>
    requires p + BLOCK_BYTES <= |s|
  {
    s[p + 2 := s[p + 10]][p + 10 := s[p + 2]][p + 6 := s[p + 14]][p + 14 := s[p + 6]]
  }

  lemma {:induction false} ShiftRow3Moves(s: seq<bv8>, p: nat)
    requires p + BLOCK_BYTES <= |s|
    ensures SameOutside(s, ShiftRow3Bytes(s, p), p)
    ensures BlockAt(ShiftRow3Bytes(s, p), p) == Aes.WithRow3(BlockAt(s, p), Rotate(Rotate(Rotate(Aes.Row3(BlockAt(s, p))))))
  {
  }

  function ShiftRow3Bytes(s: seq<bv8>, p: nat): seq<bv8>
    requires p + BLOCK_BYTES <= |s|
  {
    s[p + 3 := s[p + 15]][p + 15 := s[p + 11]][p + 11 := s[p + 7]][p + 7 := s[p + 3]]
  }

  lemma {:induction false} InvShiftRow1Moves(s: seq<bv8>, p: nat)
    requires p + BLOCK_BYTES <= |s|
    ensures SameOutside(s, InvShiftRow1Bytes(s, p), p)
    ensures BlockAt(InvShiftRow1Bytes(s, p), p) == Aes.WithRow1(BlockAt(s, p), Rotate(Rotate(Rotate(Aes.Row1(BlockAt(s, p))))))
  {
  }

  function InvShiftRow1Bytes(s: seq<bv8>, p: nat): seq<bv8>
    requires p + BLOCK_BYTES <= |s|
  {
    s[p + 13 := s[p + 9]][p + 9 := s[p + 5]][p + 5 := s[p + 1]][p + 1 := s[p + 13]]
  }

  lemma {:induction false} InvShiftRow3Moves(s: seq<bv8>, p: nat)
    requires p + BLOCK_BYTES <= |s|
    ensures SameOutside(s, InvShiftRow3Bytes(s, p), p)
    ensures BlockAt(InvShiftRow3Bytes(s, p), p) == Aes.WithRow3(BlockAt(s, p), Rotate(Aes.Row3(BlockAt(s, p))))
  {
  }

  function InvShiftRow3Bytes(s: seq<bv8>, p: nat): seq<bv8>
    requires p + BLOCK_BYTES <= |s|
  {
    s[p + 3 := s[p + 7]][p + 7 := s[p + 11]][p + 11 := s[p + 15]][p + 15 := s[p + 3]]
  }

  /** The working data of aes.c: the window that state designates, and the round keys. */
  class Engine {
    const roundKey: array<bv8>
    var state: array<bv8>
    var at: nat
    var iv: array<bv8>
    var ivAt: nat

    ghost predicate Valid()
      reads this
    {
      roundKey.Length == SCHEDULE_BYTES &&
      state != roundKey && at + BLOCK_BYTES <= state.Length &&
      iv != roundKey && ivAt + BLOCK_BYTES <= iv.Length
    }

    constructor ()
      ensures Valid() && fresh(roundKey) && fresh(state) && fresh(iv)
    {
      roundKey := new bv8[SCHEDULE_BYTES];
      state := new bv8[BLOCK_BYTES];
      at := 0;
      iv := new bv8[BLOCK_BYTES];
      ivAt := 0;
    }

    /** The vector the next block is chained to. */
    ghost function Iv(): Aes.Block
      reads this, iv
      requires Valid()
    {
      BlockAt(iv[..], ivAt)
    }

    ghost function State(): Aes.Block
      reads this, state
      requires Valid()
    {
      BlockAt(state[..], at)
    }

    ghost function Keys(): Aes.Schedule
      reads this, roundKey
      requires Valid()
    {
      ScheduleOf(roundKey[..])
    }

    /** A word is the one four words before it plus tempa. */
    method PutWord(i: nat, tempa: Word)
      requires Valid() && 4 <= i < Aes.KEY_WORDS
      modifies roundKey
      ensures roundKey[..4 * i] == old(roundKey[..4 * i])
      ensures WordAt(roundKey[..], 4 * i) == Xor(WordAt(old(roundKey[..]), 4 * i - 16), tempa)
    {
      hide Add;
      ghost var s := roundKey[..];
      roundKey[4 * i] := Add(roundKey[4 * i - 16], tempa.a);
      roundKey[4 * i + 1] := Add(roundKey[4 * i - 15], tempa.b);
      roundKey[4 * i + 2] := Add(roundKey[4 * i - 14], tempa.c);
      roundKey[4 * i + 3] := Add(roundKey[4 * i - 13], tempa.d);
      WrittenWord(s, roundKey[..], 4 * i, Xor(WordAt(s, 4 * i - 16), tempa));
    }

    /** One turn of the second loop: word i from the words i - 1 and i - 4. */
    method ExpandWord(i: nat, ghost k: Aes.Block)
      requires Valid() && 4 <= i < Aes.KEY_WORDS && Expanded(roundKey[..], k, i)
      modifies roundKey
      ensures Expanded(roundKey[..], k, i + 1)
    {
      hide Expanded, Aes.KeyWord, Aes.Temp, Aes.SubWord, Add;
      ghost var s := roundKey[..];
      ExpandedWord(s, k, i, i - 1);
      ExpandedWord(s, k, i, i - 4);
      NextWord(k, i);
      var tempa := Word(roundKey[4 * i - 4], roundKey[4 * i - 3], roundKey[4 * i - 2], roundKey[4 * i - 1]);
      if i % 4 == 0 {
        tempa := Rotate(tempa);
        tempa := Aes.SubWord(tempa);
        tempa := tempa.(a := Add(tempa.a, Aes.RCON[i / 4]));
      }
      PutWord(i, tempa);
      ExpandedStep(s, roundKey[..], k, i);
    }

    /** Fills the array of round keys from a key of 16 bytes. */
    method KeyExpansion(key: array<bv8>)
      requires Valid() && key.Length >= BLOCK_BYTES && key != roundKey
      modifies roundKey
      ensures Keys() == Aes.Expand(BlockAt(key[..], 0))
    {
      hide Expanded, Aes.KeyWord, Aes.Temp, Aes.SubWord, Add, Sbox;
      ghost var k := BlockAt(key[..], 0);
      NothingExpanded(roundKey[..], k);
      var i := 0;
      while i < 4
        invariant 0 <= i <= 4 && Expanded(roundKey[..], k, i)
      {
        ghost var s := roundKey[..];
        roundKey[4 * i] := key[4 * i];
        roundKey[4 * i + 1] := key[4 * i + 1];
        roundKey[4 * i + 2] := key[4 * i + 2];
        roundKey[4 * i + 3] := key[4 * i + 3];
        FirstWords(key[..], i);
        ExpandedStep(s, roundKey[..], k, i);
        i := i + 1;
      }
      while i < 44
        invariant 4 <= i <= 44 && Expanded(roundKey[..], k, i)
      {
        ExpandWord(i, k);
        i := i + 1;
      }
      ExpandedSchedule(roundKey[..], k);
    }

    /** (*state)[i][j] ^= RoundKey[round * 16 + i * 4 + j]. */
    method AddRoundKey(round: nat)
      requires Valid() && round <= Aes.ROUNDS
      modifies state
      ensures SameOutside(old(state[..]), state[..], at)
      ensures State() == Aes.AddRoundKey(old(State()), Aes.RoundKey(Keys(), round))
    {
      hide Add;
      ghost var s, key := state[..], roundKey[16 * round..16 * round + 16];
      for i := 0 to 4
        invariant KeyAdded(s, state[..], key, at, 4 * i)
      {
        for j := 0 to 4
          invariant KeyAdded(s, state[..], key, at, 4 * i + j)
        {
          state[at + 4 * i + j] := Add(state[at + 4 * i + j], roundKey[round * 16 + 4 * i + j]);
        }
      }
      KeyAddedIsAddRoundKey(s, state[..], roundKey[..], at, round);
    }

    method SubBytes()
      requires Valid()
      modifies state
      ensures SameOutside(old(state[..]), state[..], at)
      ensures State() == Aes.SubBytes(old(State()))
    {
      hide Sbox, Substituted;
      ghost var s := state[..];
      NothingSubstituted(s, Sbox, at);
      for i := 0 to 4
        invariant Substituted(s, state[..], Sbox, at, i, 0)
      {
        for j := 0 to 4
          invariant Substituted(s, state[..], Sbox, at, i, j)
        {
          SubstitutedStep(s, state[..], Sbox, at, i, j);
          state[at + 4 * j + i] := Sbox(state[at + 4 * j + i]);
        }
        SubstitutedRow(s, state[..], Sbox, at, i);
      }
      SubstitutedAll(s, state[..], Sbox, at);
    }

    method InvSubBytes()
      requires Valid()
      modifies state
      ensures SameOutside(old(state[..]), state[..], at)
      ensures State() == Aes.InvSubBytes(old(State()))
    {
      hide InvSbox, Substituted;
      ghost var s := state[..];
      NothingSubstituted(s, InvSbox, at);
      for i := 0 to 4
        invariant Substituted(s, state[..], InvSbox, at, i, 0)
      {
        for j := 0 to 4
          invariant Substituted(s, state[..], InvSbox, at, i, j)
        {
          SubstitutedStep(s, state[..], InvSbox, at, i, j);
          state[at + 4 * j + i] := InvSbox(state[at + 4 * j + i]);
        }
        SubstitutedRow(s, state[..], InvSbox, at, i);
      }
      SubstitutedAll(s, state[..], InvSbox, at);
    }

    /** Row 1 moves left by one column. */
    method ShiftRow1()
      requires Valid()
      modifies state
      ensures SameOutside(old(state[..]), state[..], at)
      ensures State() == Aes.WithRow1(old(State()), Rotate(Aes.Row1(old(State()))))
    {
      hide BlockAt, SameOutside, Rotate, Aes.Row1, Aes.Row2, Aes.Row3, Aes.WithRow1, Aes.WithRow2, Aes.WithRow3;
      ghost var s := state[..];
      var temp := state[at + 1];
      state[at + 1] := state[at + 5];
      state[at + 5] := state[at + 9];
      state[at + 9] := state[at + 13];
      state[at + 13] := temp;
      ShiftRow1Moves(s, at);
      assert state[..] == ShiftRow1Bytes(s, at);
    }

    /** Row 2 moves left by two columns. */
    method ShiftRow2()
      requires Valid()
      modifies state
      ensures SameOutside(old(state[..]), state[..], at)
      ensures State() == Aes.WithRow2(old(State()), Rotate(Rotate(Aes.Row2(old(State())))))
    {
      hide BlockAt, SameOutside, Rotate, Aes.Row1, Aes.Row2, Aes.Row3, Aes.WithRow1, Aes.WithRow2, Aes.WithRow3;
      ghost var s := state[..];
      var temp := state[at + 2];
      state[at + 2] := state[at + 10];
      state[at + 10] := temp;
      temp := state[at + 6];
      state[at + 6] := state[at + 14];
      state[at + 14] := temp;
      ShiftRow2Moves(s, at);
      assert state[..] == ShiftRow2Bytes(s, at);
    }

    /** Row 3 moves left by three columns. */
    method ShiftRow3()
      requires Valid()
      modifies state
      ensures SameOutside(old(state[..]), state[..], at)
      ensures State() == Aes.WithRow3(old(State()), Rotate(Rotate(Rotate(Aes.Row3(old(State()))))))
    {
      hide BlockAt, SameOutside, Rotate, Aes.Row1, Aes.Row2, Aes.Row3, Aes.WithRow1, Aes.WithRow2, Aes.WithRow3;
      ghost var s := state[..];
      var temp := state[at + 3];
      state[at + 3] := state[at + 15];
      state[at + 15] := state[at + 11];
      state[at + 11] := state[at + 7];
      state[at + 7] := temp;
      ShiftRow3Moves(s, at);
      assert state[..] == ShiftRow3Bytes(s, at);
    }

    method ShiftRows()
      requires Valid()
      modifies state
      ensures SameOutside(old(state[..]), state[..], at)
      ensures State() == Aes.ShiftRows(old(State()))
    {
      hide SameOutside, BlockAt;
      ghost var s := state[..];
      ShiftRow1();
      ghost var s1 := state[..];
      ShiftRow2();
      ghost var s2 := state[..];
      ShiftRow3();
      SameOutsideChain(s, s1, s2, at);
      SameOutsideChain(s, s2, state[..], at);
    }

    /** Row 1 moves right by one column. */
    method InvShiftRow1()
      requires Valid()
      modifies state
      ensures SameOutside(old(state[..]), state[..], at)
      ensures State() == Aes.WithRow1(old(State()), Rotate(Rotate(Rotate(Aes.Row1(old(State()))))))
    {
      hide BlockAt, SameOutside, Rotate, Aes.Row1, Aes.Row2, Aes.Row3, Aes.WithRow1, Aes.WithRow2, Aes.WithRow3;
      ghost var s := state[..];
      var temp := state[at + 13];
      state[at + 13] := state[at + 9];
      state[at + 9] := state[at + 5];
      state[at + 5] := state[at + 1];
      state[at + 1] := temp;
      InvShiftRow1Moves(s, at);
      assert state[..] == InvShiftRow1Bytes(s, at);
    }

    /** Row 2 moves right by two columns. */
    method InvShiftRow2()
      requires Valid()
      modifies state
      ensures SameOutside(old(state[..]), state[..], at)
      ensures State() == Aes.WithRow2(old(State()), Rotate(Rotate(Aes.Row2(old(State())))))
    {
      hide BlockAt, SameOutside, Rotate, Aes.Row1, Aes.Row2, Aes.Row3, Aes.WithRow1, Aes.WithRow2, Aes.WithRow3;
      ghost var s := state[..];
      var temp := state[at + 2];
      state[at + 2] := state[at + 10];
      state[at + 10] := temp;
      temp := state[at + 6];
      state[at + 6] := state[at + 14];
      state[at + 14] := temp;
      ShiftRow2Moves(s, at);
      assert state[..] == ShiftRow2Bytes(s, at);
    }

    /** Row 3 moves right by three columns. */
    method InvShiftRow3()
      requires Valid()
      modifies state
      ensures SameOutside(old(state[..]), state[..], at)
      ensures State() == Aes.WithRow3(old(State()), Rotate(Aes.Row3(old(State()))))
    {
      hide BlockAt, SameOutside, Rotate, Aes.Row1, Aes.Row2, Aes.Row3, Aes.WithRow1, Aes.WithRow2, Aes.WithRow3;
      ghost var s := state[..];
      var temp := state[at + 3];
      state[at + 3] := state[at + 7];
      state[at + 7] := state[at + 11];
      state[at + 11] := state[at + 15];
      state[at + 15] := temp;
      InvShiftRow3Moves(s, at);
      assert state[..] == InvShiftRow3Bytes(s, at);
    }

    method InvShiftRows()
      requires Valid()
      modifies state
      ensures SameOutside(old(state[..]), state[..], at)
      ensures State() == Aes.InvShiftRows(old(State()))
    {
      hide SameOutside, BlockAt;
      ghost var s := state[..];
      InvShiftRow1();
      ghost var s1 := state[..];
      InvShiftRow2();
      ghost var s2 := state[..];
      InvShiftRow3();
      SameOutsideChain(s, s1, s2, at);
      SameOutsideChain(s, s2, state[..], at);
    }

    /** One column, through the temporaries t, Tmp and Tm. */
    method MixColumnAt(p: nat)
      requires p + 4 <= state.Length
      modifies state
      ensures OneWord(old(state[..]), state[..], p)
      ensures WordAt(state[..], p) == MixColumn(old(WordAt(state[..], p)))
    {
      hide Xtime, Add;
      var t := state[p];
      var tmp := Add(Add(Add(state[p], state[p + 1]), state[p + 2]), state[p + 3]);
      var tm := Xtime(Add(state[p], state[p + 1]));
      state[p] := Add(state[p], Add(tm, tmp));
      tm := Xtime(Add(state[p + 1], state[p + 2]));
      state[p + 1] := Add(state[p + 1], Add(tm, tmp));
      tm := Xtime(Add(state[p + 2], state[p + 3]));
      state[p + 2] := Add(state[p + 2], Add(tm, tmp));
      tm := Xtime(Add(state[p + 3], t));
      state[p + 3] := Add(state[p + 3], Add(tm, tmp));
    }

    method MixColumns()
      requires Valid()
      modifies state
      ensures SameOutside(old(state[..]), state[..], at)
      ensures State() == Aes.MixColumns(old(State()))
    {
      hide MixColumn, Mixed, SameOutside, WordAt, OneWord;
      ghost var s := state[..];
      MixedStart(s, MixColumn, at);
      for i := 0 to 4
        invariant Mixed(s, state[..], MixColumn, at, i)
      {
        ghost var t := state[..];
        MixedLength(s, t, MixColumn, at, i);
        MixColumnAt(at + 4 * i);
        MixedStep(s, t, state[..], MixColumn, at, i);
      }
      MixedEnd(s, state[..], MixColumn, at);
    }

    method InvMixColumnAt(p: nat)
      requires p + 4 <= state.Length
      modifies state
      ensures OneWord(old(state[..]), state[..], p)
      ensures WordAt(state[..], p) == InvMixColumn(old(WordAt(state[..], p)))
    {
      hide Multiply, Add, InvMixColumn;
      var a, b, c, d := state[p], state[p + 1], state[p + 2], state[p + 3];
      InvMixColumnRows(Word(a, b, c, d));
      state[p] := Add(Add(Add(Multiply(a, 0x0e), Multiply(b, 0x0b)), Multiply(c, 0x0d)), Multiply(d, 0x09));
      state[p + 1] := Add(Add(Add(Multiply(a, 0x09), Multiply(b, 0x0e)), Multiply(c, 0x0b)), Multiply(d, 0x0d));
      state[p + 2] := Add(Add(Add(Multiply(a, 0x0d), Multiply(b, 0x09)), Multiply(c, 0x0e)), Multiply(d, 0x0b));
      state[p + 3] := Add(Add(Add(Multiply(a, 0x0b), Multiply(b, 0x0d)), Multiply(c, 0x09)), Multiply(d, 0x0e));
    }

    method InvMixColumns()
      requires Valid()
      modifies state
      ensures SameOutside(old(state[..]), state[..], at)
      ensures State() == Aes.InvMixColumns(old(State()))
    {
      hide InvMixColumn, Mixed, SameOutside, WordAt, OneWord;
      ghost var s := state[..];
      MixedStart(s, InvMixColumn, at);
      for i := 0 to 4
        invariant Mixed(s, state[..], InvMixColumn, at, i)
      {
        ghost var t := state[..];
        MixedLength(s, t, InvMixColumn, at, i);
        InvMixColumnAt(at + 4 * i);
        MixedStep(s, t, state[..], InvMixColumn, at, i);
      }
      MixedEnd(s, state[..], InvMixColumn, at);
    }

    /** The state becomes its cipher under the current round keys. */
    method Cipher()
      requires Valid()
      modifies state
      ensures SameOutside(old(state[..]), state[..], at)
      ensures State() == Aes.Cipher(Keys(), old(State()))
    {
      hide SameOutside, BlockAt, Aes.AddRoundKey, Aes.SubBytes, Aes.ShiftRows, Aes.MixColumns, Aes.RoundKey;
      ghost var s, w, b := state[..], Keys(), State();
      AddRoundKey(0);
      for round := 1 to 10
        invariant SameOutside(s, state[..], at)
        invariant State() == Aes.Rounds(w, round - 1, b)
      {
        ghost var s0 := state[..];
        SubBytes();
        ghost var s1 := state[..];
        ShiftRows();
        ghost var s2 := state[..];
        MixColumns();
        ghost var s3 := state[..];
        AddRoundKey(round);
        SameOutsideChain(s, s0, s1, at);
        SameOutsideChain(s, s1, s2, at);
        SameOutsideChain(s, s2, s3, at);
        SameOutsideChain(s, s3, state[..], at);
      }
      ghost var s0 := state[..];
      SubBytes();
      ghost var s1 := state[..];
      ShiftRows();
      ghost var s2 := state[..];
      AddRoundKey(10);
      SameOutsideChain(s, s0, s1, at);
      SameOutsideChain(s, s1, s2, at);
      SameOutsideChain(s, s2, state[..], at);
    }

    /** The state becomes its inverse cipher under the current round keys. */
    method InvCipher()
      requires Valid()
      modifies state
      ensures SameOutside(old(state[..]), state[..], at)
      ensures State() == Aes.InvCipher(Keys(), old(State()))
    {
      hide SameOutside, BlockAt, Aes.AddRoundKey, Aes.InvSubBytes, Aes.InvShiftRows, Aes.InvMixColumns, Aes.RoundKey;
      ghost var s, w, b := state[..], Keys(), State();
      AddRoundKey(10);
      var round := 9;
      while round > 0
        invariant 0 <= round <= 9
        invariant SameOutside(s, state[..], at)
        invariant State() == Aes.InvRounds(w, round, b)
      {
        ghost var s0 := state[..];
        InvShiftRows();
        ghost var s1 := state[..];
        InvSubBytes();
        ghost var s2 := state[..];
        AddRoundKey(round);
        ghost var s3 := state[..];
        InvMixColumns();
        round := round - 1;
        SameOutsideChain(s, s0, s1, at);
        SameOutsideChain(s, s1, s2, at);
        SameOutsideChain(s, s2, s3, at);
        SameOutsideChain(s, s3, state[..], at);
      }
      ghost var s0 := state[..];
      InvShiftRows();
      ghost var s1 := state[..];
      InvSubBytes();
      ghost var s2 := state[..];
      AddRoundKey(0);
      SameOutsideChain(s, s0, s1, at);
      SameOutsideChain(s, s1, s2, at);
      SameOutsideChain(s, s2, state[..], at);
    }

    // -------------------------------------------------------------- entry points

    /** memcpy to the output, which becomes the state. */
    method Load(input: array<bv8>, output: array<bv8>, length: nat)
      requires Valid() && output.Length >= BLOCK_BYTES && output != roundKey && output != input
      requires length <= input.Length && length <= output.Length
      modifies this`state, this`at, output
      ensures Valid() && state == output && at == 0
      ensures output[..] == Copied(input[..], old(output[..]), length)
    {
      forall k | 0 <= k < length {
        output[k] := input[k];
      }
      state, at := output, 0;
    }

    /** Copies length bytes and ciphers the first block of the copy. */
    method EcbEncrypt(input: array<bv8>, key: array<bv8>, output: array<bv8>, length: nat)
      requires Valid() && key.Length >= BLOCK_BYTES && key != roundKey
      requires output.Length >= BLOCK_BYTES && output != roundKey && output != input && output != key
      requires input != roundKey
      requires length <= input.Length && length <= output.Length
      modifies this, roundKey, output
      ensures Valid() && iv == old(iv) && ivAt == old(ivAt)
      ensures SameOutside(Copied(input[..], old(output[..]), length), output[..], 0)
      ensures BlockAt(output[..], 0) ==
              Aes.Cipher(Aes.Expand(BlockAt(key[..], 0)), BlockAt(Copied(input[..], old(output[..]), length), 0))
    {
      hide Aes.Cipher, Aes.Expand, ScheduleOf, SameOutside, BlockAt, Copied;
      Load(input, output, length);
      KeyExpansion(key);
      Cipher();
    }

    /** Copies length bytes and applies the inverse cipher to the first block of the copy. */
    method EcbDecrypt(input: array<bv8>, key: array<bv8>, output: array<bv8>, length: nat)
      requires Valid() && key.Length >= BLOCK_BYTES && key != roundKey
      requires output.Length >= BLOCK_BYTES && output != roundKey && output != input && output != key
      requires input != roundKey
      requires length <= input.Length && length <= output.Length
      modifies this, roundKey, output
      ensures Valid() && iv == old(iv) && ivAt == old(ivAt)
      ensures SameOutside(Copied(input[..], old(output[..]), length), output[..], 0)
      ensures BlockAt(output[..], 0) ==
              Aes.InvCipher(Aes.Expand(BlockAt(key[..], 0)), BlockAt(Copied(input[..], old(output[..]), length), 0))
    {
      hide Aes.InvCipher, Aes.Expand, ScheduleOf, SameOutside, BlockAt, Copied;
      Load(input, output, length);
      KeyExpansion(key);
      InvCipher();
    }

    /** One block; the round keys of the call before are used when no key is given. */
    method AESEncryptBlock(input: array<bv8>, output: array<bv8>, key: array?<bv8>)
      requires Valid() && (key != null ==> key.Length >= BLOCK_BYTES && key != roundKey && key != output)
      requires input.Length >= BLOCK_BYTES && output.Length >= BLOCK_BYTES && output != roundKey && output != input
      requires input != roundKey
      modifies this, roundKey, output
      ensures Valid() && iv == old(iv) && ivAt == old(ivAt)
      ensures Keys() == if key != null then Aes.Expand(BlockAt(key[..], 0)) else old(Keys())
      ensures SameOutside(old(output[..]), output[..], 0)
      ensures BlockAt(output[..], 0) == Aes.Cipher(Keys(), BlockAt(input[..], 0))
    {
      hide Aes.Cipher, Aes.Expand, ScheduleOf, SameOutside, BlockAt, Copied;
      ghost var was := output[..];
      Load(input, output, 16);
      CopiedBlock(input[..], was);
      ghost var copy := output[..];
      if key != null {
        KeyExpansion(key);
      }
      Cipher();
      SameOutsideChain(was, copy, output[..], 0);
    }

    /** buf[i] ^= Iv[i]. */
    method XorWithIv(buf: array<bv8>, p: nat)
      requires Valid() && p + BLOCK_BYTES <= buf.Length && buf != iv && buf != roundKey
      modifies buf
      ensures SameOutside(old(buf[..]), buf[..], p)
      ensures BlockAt(buf[..], p) == Aes.AddRoundKey(old(BlockAt(buf[..], p)), Iv())
    {
      hide Add;
      ghost var s, key := buf[..], iv[ivAt..ivAt + 16];
      for i := 0 to BLOCK_BYTES
        invariant KeyAdded(s, buf[..], key, p, i)
      {
        buf[p + i] := Add(buf[p + i], iv[ivAt + i]);
      }
      KeyAddedBlock(s, buf[..], key, p);
    }

    /** The round keys and the initial vector of a call: a null argument keeps those of the call before. */
    method Start(key: array?<bv8>, vector: array?<bv8>)
      requires Valid() && (key != null ==> key.Length >= BLOCK_BYTES && key != roundKey)
      requires vector != null ==> vector.Length >= BLOCK_BYTES && vector != roundKey
      modifies this`iv, this`ivAt, roundKey
      ensures Valid()
      ensures Keys() == if key != null then Aes.Expand(BlockAt(key[..], 0)) else old(Keys())
      ensures if vector != null then iv == vector && ivAt == 0 else iv == old(iv) && ivAt == old(ivAt)
    {
      hide Aes.Expand, ScheduleOf, BlockAt;
      if key != null {
        KeyExpansion(key);
      }
      if vector != null {
        iv, ivAt := vector, 0;
      }
    }

    /** One round of the loop of AES_CBC_encrypt_buffer, at position p of both buffers. */
    method CbcEncryptBlock(output: array<bv8>, input: array<bv8>, p: nat)
      requires Valid() && p + BLOCK_BYTES <= output.Length && p + BLOCK_BYTES <= input.Length
      requires input != output && input != iv && input != roundKey && output != roundKey
      modifies this`state, this`at, this`iv, this`ivAt, input, output
      ensures Valid() && iv == output && ivAt == p
      ensures SameOutside(old(input[..]), input[..], p) && SameOutside(old(output[..]), output[..], p)
      ensures BlockAt(input[..], p) == Aes.AddRoundKey(old(BlockAt(input[..], p)), old(Iv()))
      ensures BlockAt(output[..], p) == Aes.Cipher(Keys(), BlockAt(input[..], p))
    {
      hide Aes.AddRoundKey, Aes.Cipher, ScheduleOf, SameOutside, BlockAt;
      ghost var was := output[..];
      XorWithIv(input, p);
      CopyBlock(output, input, p);
      ghost var copy := output[..];
      Cipher();
      SameOutsideChain(was, copy, output[..], p);
      iv, ivAt := output, p;
    }

    /** One round of the loop of AES_CBC_decrypt_buffer. */
    method CbcDecryptBlock(output: array<bv8>, input: array<bv8>, p: nat)
      requires Valid() && p + BLOCK_BYTES <= output.Length && p + BLOCK_BYTES <= input.Length
      requires input != output && output != iv && input != roundKey && output != roundKey
      modifies this`state, this`at, this`iv, this`ivAt, output
      ensures Valid() && iv == input && ivAt == p
      ensures SameOutside(old(output[..]), output[..], p)
      ensures BlockAt(output[..], p) == Aes.AddRoundKey(Aes.InvCipher(Keys(), BlockAt(input[..], p)), old(Iv()))
    {
      hide Aes.AddRoundKey, Aes.InvCipher, ScheduleOf, SameOutside, BlockAt;
      ghost var was := output[..];
      CopyBlock(output, input, p);
      ghost var copy := output[..];
      InvCipher();
      ghost var plain := output[..];
      XorWithIv(output, p);
      SameOutsideChain(was, copy, plain, p);
      SameOutsideChain(was, plain, output[..], p);
      iv, ivAt := input, p;
    }

    /** memcpy of one block; the copy becomes the state. */
    method CopyBlock(output: array<bv8>, input: array<bv8>, p: nat)
      requires Valid() && p + BLOCK_BYTES <= output.Length && p + BLOCK_BYTES <= input.Length
      requires input != output && output != roundKey
      modifies this`state, this`at, output
      ensures Valid() && state == output && at == p
      ensures SameOutside(old(output[..]), output[..], p)
      ensures BlockAt(output[..], p) == BlockAt(input[..], p)
    {
      forall k | p <= k < p + 16 {
        output[k] := input[k];
      }
      state, at := output, p;
    }

    /** Chained encryption of length bytes; the input is left holding what was ciphered. */
    method CbcEncrypt(output: array<bv8>, input: array<bv8>, length: nat, key: array?<bv8>, vector: array?<bv8>)
      requires Valid() && length % BLOCK_BYTES == 0 && length <= output.Length && length <= input.Length
      requires key != null ==> key.Length >= BLOCK_BYTES && key != roundKey
      requires vector != null ==> vector.Length >= BLOCK_BYTES && vector != roundKey
      requires input != output && input != roundKey && output != roundKey
      requires input != if vector != null then vector else iv
      modifies this, roundKey, input, output
      ensures Valid()
      ensures Keys() == if key != null then Aes.Expand(old(BlockAt(key[..], 0))) else old(Keys())
      ensures Chained(Keys(), if vector != null then old(BlockAt(vector[..], 0)) else old(Iv()), old(input[..]), old(output[..]),
                      input[..], output[..], length / BLOCK_BYTES)
      ensures length > 0 ==> iv == output && ivAt == length - BLOCK_BYTES
    {
      hide Aes.Expand, Aes.AddRoundKey, Aes.Cipher, ScheduleOf, SameOutside, BlockAt, Chained;
      ghost var v := if vector != null then BlockAt(vector[..], 0) else Iv();
      ghost var s, t, n := input[..], output[..], 0;
      Start(key, vector);
      ghost var w := Keys();
      NothingChained(w, v, s, t);
      var i := 0;
      while i < length
        invariant 0 <= i <= length && i == BLOCK_BYTES * n
        invariant Valid() && Keys() == w && iv != input
        invariant Chained(w, v, s, t, input[..], output[..], n)
        invariant Iv() == Cbc.Last(v, BlocksAt(output[..], n))
        invariant if i == 0 then Iv() == v else iv == output && ivAt == i - BLOCK_BYTES
      {
        ghost var s', t' := input[..], output[..];
        ChainedInput(w, v, s, t, s', t', n);
        CbcEncryptBlock(output, input, i);
        ChainedStep(w, v, s, t, s', t', input[..], output[..], n);
        LastBlock(v, output[..], n);
        i, n := i + BLOCK_BYTES, n + 1;
      }
    }

    /** Chained decryption of length bytes. */
    method CbcDecrypt(output: array<bv8>, input: array<bv8>, length: nat, key: array?<bv8>, vector: array?<bv8>)
      requires Valid() && length % BLOCK_BYTES == 0 && length <= output.Length && length <= input.Length
      requires key != null ==> key.Length >= BLOCK_BYTES && key != roundKey
      requires vector != null ==> vector.Length >= BLOCK_BYTES && vector != roundKey
      requires input != output && input != roundKey && output != roundKey
      requires output != if vector != null then vector else iv
      modifies this, roundKey, output
      ensures Valid()
      ensures Keys() == if key != null then Aes.Expand(old(BlockAt(key[..], 0))) else old(Keys())
      ensures Unchained(Keys(), if vector != null then old(BlockAt(vector[..], 0)) else old(Iv()), input[..], old(output[..]),
                        output[..], length / BLOCK_BYTES)
      ensures length > 0 ==> iv == input && ivAt == length - BLOCK_BYTES
    {
      hide Aes.Expand, Aes.AddRoundKey, Aes.InvCipher, ScheduleOf, SameOutside, BlockAt, Unchained;
      ghost var v := if vector != null then BlockAt(vector[..], 0) else Iv();
      ghost var s, t, n := input[..], output[..], 0;
      Start(key, vector);
      ghost var w := Keys();
      NothingUnchained(w, v, s, t);
      var i := 0;
      while i < length
        invariant 0 <= i <= length && i == BLOCK_BYTES * n
        invariant Valid() && Keys() == w && iv != output
        invariant Unchained(w, v, s, t, output[..], n)
        invariant Iv() == Cbc.Last(v, BlocksAt(s, n))
        invariant if i == 0 then Iv() == v else iv == input && ivAt == i - BLOCK_BYTES
      {
        ghost var t' := output[..];
        CbcDecryptBlock(output, input, i);
        UnchainedStep(w, v, s, t, t', output[..], n);
        LastBlock(v, s, n);
        i, n := i + BLOCK_BYTES, n + 1;
      }
    }
  }

  /** The first n blocks of a buffer. */
  function BlocksAt(s: seq<bv8>, n: nat): (r: seq<Aes.Block>)
    requires BLOCK_BYTES * n <= |s|
    ensures |r| == n
  {
    seq(n, i requires 0 <= i < n => BlockAt(s, BLOCK_BYTES * i))
  }

  /**
    * Buffers in and out after n blocks of chained encryption from buffers s and t: the output holds the
    * encrypted blocks, every output block is the cipher of what is left in the input, the rest is as before.
    */
  predicate Chained(w: Aes.Schedule, v: Aes.Block, s: seq<bv8>, t: seq<bv8>, input: seq<bv8>, output: seq<bv8>, n: nat) {
    |input| == |s| && |output| == |t| && BLOCK_BYTES * n <= |s| && BLOCK_BYTES * n <= |t| &&
    BlocksAt(output, n) == Cbc.Encrypt(w, v, BlocksAt(s, n)) &&
    (forall k: nat | k < n :: BlocksAt(output, n)[k] == Aes.Cipher(w, BlocksAt(input, n)[k])) &&
    input[BLOCK_BYTES * n..] == s[BLOCK_BYTES * n..] && output[BLOCK_BYTES * n..] == t[BLOCK_BYTES * n..]
  }

  /** The output buffer after n blocks of chained decryption of s into t. */
  predicate Unchained(w: Aes.Schedule, v: Aes.Block, s: seq<bv8>, t: seq<bv8>, output: seq<bv8>, n: nat) {
    |output| == |t| && BLOCK_BYTES * n <= |s| && BLOCK_BYTES * n <= |t| &&
    BlocksAt(output, n) == Cbc.Decrypt(w, v, BlocksAt(s, n)) &&
    output[BLOCK_BYTES * n..] == t[BLOCK_BYTES * n..]
  }

  lemma {:induction false} NothingChained(w: Aes.Schedule, v: Aes.Block, s: seq<bv8>, t: seq<bv8>)
    ensures Chained(w, v, s, t, s, t, 0)
  {
    hide Aes.Cipher;
  }

  lemma {:induction false} NothingUnchained(w: Aes.Schedule, v: Aes.Block, s: seq<bv8>, t: seq<bv8>)
    ensures Unchained(w, v, s, t, t, 0)
  {
    hide Aes.InvCipher, Aes.AddRoundKey;
  }

  /** Writing block n of a buffer appends it to the blocks before. */
  lemma {:induction false} BlocksGrow(s: seq<bv8>, t: seq<bv8>, n: nat)
    requires BLOCK_BYTES * (n + 1) <= |s| && SameOutside(s, t, BLOCK_BYTES * n)
    ensures BlocksAt(t, n + 1) == BlocksAt(s, n) + [BlockAt(t, BLOCK_BYTES * n)]
    ensures t[BLOCK_BYTES * (n + 1)..] == s[BLOCK_BYTES * (n + 1)..]
  {
    forall i: nat | i < n
      ensures BlocksAt(t, n + 1)[i] == BlocksAt(s, n)[i]
    {
      SameBlock(s, t, n, i);
    }
  }

  lemma {:induction false} SameBlock(s: seq<bv8>, t: seq<bv8>, n: nat, i: nat)
    requires BLOCK_BYTES * (n + 1) <= |s| && SameOutside(s, t, BLOCK_BYTES * n) && i < n
    ensures BlockAt(t, BLOCK_BYTES * i) == BlockAt(s, BLOCK_BYTES * i)
  {
  }

  lemma {:induction false} LastBlock(v: Aes.Block, s: seq<bv8>, n: nat)
    requires BLOCK_BYTES * (n + 1) <= |s|
    ensures Cbc.Last(v, BlocksAt(s, n + 1)) == BlockAt(s, BLOCK_BYTES * n)
  {
    hide BlockAt;
  }

  /** The block to come is still as the caller gave it. */
  lemma {:induction false} ChainedInput(w: Aes.Schedule, v: Aes.Block, s: seq<bv8>, t: seq<bv8>, s': seq<bv8>, t': seq<bv8>, n: nat)
    requires Chained(w, v, s, t, s', t', n) && BLOCK_BYTES * (n + 1) <= |s|
    ensures |s'| == |s| && |t'| == |t|
    ensures BlockAt(s', BLOCK_BYTES * n) == BlockAt(s, BLOCK_BYTES * n)
  {
    hide Aes.Cipher, BlockAt;
    TailBlock(s, BLOCK_BYTES * n);
    TailBlock(s', BLOCK_BYTES * n);
  }

  lemma {:induction false} TailBlock(s: seq<bv8>, p: nat)
    requires p + BLOCK_BYTES <= |s|
    ensures BlockAt(s[p..], 0) == BlockAt(s, p)
  {
  }

  lemma {:induction false} ChainedStep(w: Aes.Schedule, v: Aes.Block, s: seq<bv8>, t: seq<bv8>, s': seq<bv8>, t': seq<bv8>,
                                       s'': seq<bv8>, t'': seq<bv8>, n: nat)
    requires Chained(w, v, s, t, s', t', n) && BLOCK_BYTES * (n + 1) <= |s| == |s'| && BLOCK_BYTES * (n + 1) <= |t| == |t'|
    requires SameOutside(s', s'', BLOCK_BYTES * n) && SameOutside(t', t'', BLOCK_BYTES * n)
    requires BlockAt(s'', BLOCK_BYTES * n) == Aes.AddRoundKey(BlockAt(s, BLOCK_BYTES * n), Cbc.Last(v, BlocksAt(t', n)))
    requires BlockAt(t'', BLOCK_BYTES * n) == Aes.Cipher(w, BlockAt(s'', BLOCK_BYTES * n))
    ensures Chained(w, v, s, t, s'', t'', n + 1)
  {
    hide Aes.Cipher, Aes.AddRoundKey, BlockAt, BlocksAt, Cbc.Encrypt;
    BlocksGrow(s', s'', n);
    BlocksGrow(t', t'', n);
    SameAsItself(s, n);
    BlocksGrow(s, s, n);
    Cbc.EncryptSnoc(w, v, BlocksAt(s, n), BlockAt(s, BLOCK_BYTES * n));
    Later(s', s, n);
    Later(t', t, n);
  }

  lemma {:induction false} SameAsItself(s: seq<bv8>, n: nat)
    ensures SameOutside(s, s, BLOCK_BYTES * n)
  {
  }

  lemma {:induction false} Later(s: seq<bv8>, t: seq<bv8>, n: nat)
    requires |s| == |t| && BLOCK_BYTES * (n + 1) <= |s| && s[BLOCK_BYTES * n..] == t[BLOCK_BYTES * n..]
    ensures s[BLOCK_BYTES * (n + 1)..] == t[BLOCK_BYTES * (n + 1)..]
  {
    assert s[BLOCK_BYTES * (n + 1)..] == s[BLOCK_BYTES * n..][BLOCK_BYTES..];
    assert t[BLOCK_BYTES * (n + 1)..] == t[BLOCK_BYTES * n..][BLOCK_BYTES..];
  }

  lemma {:induction false} UnchainedStep(w: Aes.Schedule, v: Aes.Block, s: seq<bv8>, t: seq<bv8>, t': seq<bv8>, t'': seq<bv8>, n: nat)
    requires Unchained(w, v, s, t, t', n) && BLOCK_BYTES * (n + 1) <= |s| && BLOCK_BYTES * (n + 1) <= |t| == |t'|
    requires SameOutside(t', t'', BLOCK_BYTES * n)
    requires BlockAt(t'', BLOCK_BYTES * n) ==
             Aes.AddRoundKey(Aes.InvCipher(w, BlockAt(s, BLOCK_BYTES * n)), Cbc.Last(v, BlocksAt(s, n)))
    ensures Unchained(w, v, s, t, t'', n + 1)
  {
    hide Aes.InvCipher, Aes.AddRoundKey, BlockAt, BlocksAt, Cbc.Decrypt;
    BlocksGrow(t', t'', n);
    SameAsItself(s, n);
    BlocksGrow(s, s, n);
    Cbc.DecryptSnoc(w, v, BlocksAt(s, n), BlockAt(s, BLOCK_BYTES * n));
    Later(t', t, n);
  }

  /** The first length bytes of s, and the rest of t. */
  function Copied(s: seq<bv8>, t: seq<bv8>, length: nat): (r: seq<bv8>)
    requires length <= |s| && length <= |t|
    ensures |r| == |t|
  {
    s[..length] + t[length..]
  }

  lemma {:induction false} CopiedBlock(s: seq<bv8>, t: seq<bv8>)
    requires |s| >= BLOCK_BYTES && |t| >= BLOCK_BYTES
    ensures BlockAt(Copied(s, t, BLOCK_BYTES), 0) == BlockAt(s, 0)
    ensures SameOutside(t, Copied(s, t, BLOCK_BYTES), 0)
  {
  }

  lemma {:induction false} KeyAddedBlock(s: seq<bv8>, t: seq<bv8>, key: seq<bv8>, p: nat)
    requires p + BLOCK_BYTES <= |s| && |key| == BLOCK_BYTES && KeyAdded(s, t, key, p, 16)
    ensures SameOutside(s, t, p)
    ensures BlockAt(t, p) == Aes.AddRoundKey(BlockAt(s, p), BlockAt(key, 0))
  {
    hide Add;
  }

  lemma {:induction false} KeyAddedIsAddRoundKey(s: seq<bv8>, t: seq<bv8>, bytes: seq<bv8>, p: nat, round: nat)
    requires p + BLOCK_BYTES <= |s| && |bytes| == SCHEDULE_BYTES && round <= Aes.ROUNDS
    requires KeyAdded(s, t, bytes[16 * round..16 * round + 16], p, 16)
    ensures SameOutside(s, t, p)
    ensures BlockAt(t, p) == Aes.AddRoundKey(BlockAt(s, p), Aes.RoundKey(ScheduleOf(bytes), round))
  {
    hide KeyAdded, SameOutside, Aes.AddRoundKey;
    KeyAddedBlock(s, t, bytes[16 * round..16 * round + 16], p);
  }
}
