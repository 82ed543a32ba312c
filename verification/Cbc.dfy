/**
  * Cipher block chaining as aes.c does it, on sequences of blocks: encryption and decryption undo each other, and
  * a message may be cut in two calls because the second goes on from the last block of the first.
  */
module Cbc {
  import opened Aes

  /** The block that is added to the next one: the last of a sequence, or the initial vector. */
  function Last(iv: Block, cs: seq<Block>): Block {
    if cs == [] then iv else cs[|cs| - 1]
  }

  function Encrypt(w: Schedule, iv: Block, ms: seq<Block>): (cs: seq<Block>)
    ensures |cs| == |ms|
  {
    if ms == [] then []
    else
      var before := Encrypt(w, iv, ms[..|ms| - 1]);
      before + [Cipher(w, AddRoundKey(ms[|ms| - 1], Last(iv, before)))]
  }

  function Decrypt(w: Schedule, iv: Block, cs: seq<Block>): seq<Block> {
    seq(|cs|, i requires 0 <= i < |cs| => AddRoundKey(InvCipher(w, cs[i]), Last(iv, cs[..i])))
  }

  lemma {:induction false} EncryptSnoc(w: Schedule, iv: Block, ms: seq<Block>, m: Block)
    ensures Encrypt(w, iv, ms + [m]) ==
            Encrypt(w, iv, ms) + [Cipher(w, AddRoundKey(m, Last(iv, Encrypt(w, iv, ms))))]
  {
    hide Cipher, AddRoundKey;
    var all := ms + [m];
    assert all[..|all| - 1] == ms;
  }

  lemma {:induction false} DecryptSnoc(w: Schedule, iv: Block, cs: seq<Block>, c: Block)
    ensures Decrypt(w, iv, cs + [c]) == Decrypt(w, iv, cs) + [AddRoundKey(InvCipher(w, c), Last(iv, cs))]
  {
    hide InvCipher, AddRoundKey;
    var all := cs + [c];
    forall i | 0 <= i < |cs|
      ensures all[..i] == cs[..i]
    {
    }
    assert all[..|cs|] == cs;
  }

  /** Decryption undoes encryption, for every key schedule, initial vector and number of blocks. */
  lemma {:induction false} DecryptUndoes(w: Schedule, iv: Block, ms: seq<Block>)
    ensures Decrypt(w, iv, Encrypt(w, iv, ms)) == ms
  {
    hide Cipher, InvCipher, AddRoundKey, Decrypt;
    if ms == [] {
      NothingDecrypted(w, iv);
    } else {
      var n := |ms| - 1;
      var before := Encrypt(w, iv, ms[..n]);
      DecryptUndoes(w, iv, ms[..n]);
      var m := AddRoundKey(ms[n], Last(iv, before));
      DecryptSnoc(w, iv, before, Cipher(w, m));
      InvCipherUndoes(w, m);
      AddRoundKeyInverse(ms[n], Last(iv, before));
    }
  }

  lemma {:induction false} NothingDecrypted(w: Schedule, iv: Block)
    ensures Decrypt(w, iv, []) == []
  {
    hide InvCipher, AddRoundKey;
  }

  /** Encryption undoes decryption, so encryption is a bijection on sequences of n blocks. */
  lemma {:induction false} EncryptUndoes(w: Schedule, iv: Block, cs: seq<Block>)
    ensures Encrypt(w, iv, Decrypt(w, iv, cs)) == cs
  {
    hide Cipher, InvCipher, AddRoundKey, Decrypt;
    if cs == [] {
      NothingDecrypted(w, iv);
    } else {
      var n := |cs| - 1;
      EncryptUndoes(w, iv, cs[..n]);
      assert cs == cs[..n] + [cs[n]];
      DecryptSnoc(w, iv, cs[..n], cs[n]);
      var ms := Decrypt(w, iv, cs);
      assert ms[..|ms| - 1] == Decrypt(w, iv, cs[..n]);
      AddRoundKeyInverse(InvCipher(w, cs[n]), Last(iv, cs[..n]));
      CipherUndoes(w, cs[n]);
    }
  }

  /** A call without initial vector goes on where the call before it stopped. */
  lemma {:induction false} EncryptInTwoCalls(w: Schedule, iv: Block, xs: seq<Block>, ys: seq<Block>)
    ensures Encrypt(w, iv, xs + ys) ==
            Encrypt(w, iv, xs) + Encrypt(w, Last(iv, Encrypt(w, iv, xs)), ys)
  {
    hide Cipher, AddRoundKey;
    var cs := Encrypt(w, iv, xs);
    if ys == [] {
      assert xs + ys == xs;
      assert cs + Encrypt(w, Last(iv, cs), ys) == cs;
    } else {
      var n := |ys| - 1;
      var all := xs + ys;
      assert all[..|all| - 1] == xs + ys[..n];
      EncryptInTwoCalls(w, iv, xs, ys[..n]);
      var ds := Encrypt(w, Last(iv, cs), ys[..n]);
      assert Last(iv, cs + ds) == Last(Last(iv, cs), ds);
      var c := Cipher(w, AddRoundKey(ys[n], Last(Last(iv, cs), ds)));
      assert cs + ds + [c] == cs + (ds + [c]);
    }
  }

  /** A changed cipher block spoils two blocks and no more: decryption recovers by itself. */
  lemma {:induction false} DecryptRecovers(w: Schedule, iv: Block, cs: seq<Block>, k: nat, c: Block)
    requires k < |cs|
    ensures |Decrypt(w, iv, cs[k := c])| == |Decrypt(w, iv, cs)| == |cs|
    ensures Decrypt(w, iv, cs[k := c])[..k] == Decrypt(w, iv, cs)[..k]
    ensures k + 1 < |cs| ==> Decrypt(w, iv, cs[k := c])[k + 2..] == Decrypt(w, iv, cs)[k + 2..]
  {
    hide InvCipher, AddRoundKey;
    forall i | 0 <= i < |cs| && i != k && i != k + 1
      ensures cs[k := c][i] == cs[i] && Last(iv, cs[k := c][..i]) == Last(iv, cs[..i])
    {
    }
  }
}
