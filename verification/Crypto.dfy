/**
  * crypto.c: payload encryption in counter mode, the join-accept message, and the message integrity code of a frame.
  */
module Crypto {
  import opened AesBytes
  import opened Aes
  import opened AesState
  import opened Cmac

  /** The header fields both functions use, in memory order. */
  datatype Header = Header(devAddr: Word, counterLow: bv8, counterHigh: bv8)

  /** The last byte of a counter block is a uint8_t. */
  function Low(n: nat): bv8 {
    (n % 256) as bv8
  }

  /** A_i, or B_0 with another first and last byte. */
  function Prefix(first: bv8, direction: bv8, h: Header, last: bv8): (s: seq<bv8>)
    ensures |s| == BLOCK_BYTES
  {
    [first, 0, 0, 0, 0, direction, h.devAddr.a, h.devAddr.b, h.devAddr.c, h.devAddr.d,
     h.counterLow, h.counterHigh, 0, 0, 0, last]
  }

  // ---------------------------------------------------------------- payloads

  /** Byte i of key block k; blocks are counted from 1. */
  type KeyStream = (nat, nat) -> bv8

  /** The payload combined with the key stream. */
  function Masked(key: KeyStream, src: seq<bv8>): (r: seq<bv8>)
    ensures |r| == |src|
  {
    seq(|src|, i requires 0 <= i < |src| => Add(src[i], key(i / 16 + 1, i % 16)))
  }

  /** Encrypting twice gives the payload back. */
  lemma {:induction false} MaskedTwice(key: KeyStream, src: seq<bv8>)
    ensures Masked(key, Masked(key, src)) == src
  {
    hide Add;
    forall i | 0 <= i < |src|
      ensures Masked(key, Masked(key, src))[i] == src[i]
    {
      AddTwice(src[i], key(i / 16 + 1, i % 16));
    }
  }

  /** The n bytes a call of the inner loop writes for a block. */
  function Chunk(key: KeyStream, src: seq<bv8>, block: nat, n: nat): (r: seq<bv8>)
    requires n <= BLOCK_BYTES && block % 16 * 16 + n <= |src|
    ensures |r| == n
  {
    seq(n, i requires 0 <= i < n => Add(src[block % 16 * 16 + i], key(block + 1, i)))
  }

  /** The destination with n bytes of one block written; its position wraps at 256 because len is a uint8_t. */
  function Put(key: KeyStream, src: seq<bv8>, dest: seq<bv8>, block: nat, n: nat): (r: seq<bv8>)
    requires n <= BLOCK_BYTES && block % 16 * 16 + n <= |src| && block % 16 * 16 + n <= |dest|
    ensures |r| == |dest|
  {
    var p := block % 16 * 16;
    dest[..p] + Chunk(key, src, block, n) + dest[p + n..]
  }

  /** The destination after n whole blocks. */
  function Whole(key: KeyStream, src: seq<bv8>, dest: seq<bv8>, n: nat): (r: seq<bv8>)
    requires BLOCK_BYTES * n <= |src| && BLOCK_BYTES * n <= |dest|
    ensures |r| == |dest|
  {
    if n == 0 then dest else Put(key, src, Whole(key, src, dest, n - 1), n - 1, BLOCK_BYTES)
  }

  /** The destination after the whole call. */
  function Written(key: KeyStream, src: seq<bv8>, dest: seq<bv8>, size: nat): (r: seq<bv8>)
    requires size <= |src| && size <= |dest|
    ensures |r| == |dest|
  {
    Put(key, src, Whole(key, src, dest, size / 16), size / 16, size % 16)
  }

  lemma {:induction false} WholeIsMasked(key: KeyStream, src: seq<bv8>, dest: seq<bv8>, n: nat)
    requires n <= 16 && BLOCK_BYTES * n <= |src| && BLOCK_BYTES * n <= |dest|
    ensures Whole(key, src, dest, n) == Masked(key, src[..BLOCK_BYTES * n]) + dest[BLOCK_BYTES * n..]
  {
    hide Add;
    if n > 0 {
      WholeIsMasked(key, src, dest, n - 1);
      PutExtends(key, src, dest, n - 1, BLOCK_BYTES);
    } else {
      assert Masked(key, src[..0]) + dest[0..] == dest;
    }
  }

  lemma {:induction false} MaskedGrows(key: KeyStream, src: seq<bv8>, block: nat, n: nat)
    requires block < 16 && n <= BLOCK_BYTES && BLOCK_BYTES * block + n <= |src|
    ensures Masked(key, src[..BLOCK_BYTES * block + n]) == Masked(key, src[..BLOCK_BYTES * block]) + Chunk(key, src, block, n)
  {
    hide Add;
    var p := BLOCK_BYTES * block;
    forall i | p <= i < p + n
      ensures i / 16 == block && i % 16 == i - p
    {
    }
  }

  lemma {:induction false} PutExtends(key: KeyStream, src: seq<bv8>, dest: seq<bv8>, block: nat, n: nat)
    requires block < 16 && n <= BLOCK_BYTES
    requires BLOCK_BYTES * block + n <= |src| && BLOCK_BYTES * block + n <= |dest|
    ensures Put(key, src, Masked(key, src[..BLOCK_BYTES * block]) + dest[BLOCK_BYTES * block..], block, n) ==
            Masked(key, src[..BLOCK_BYTES * block + n]) + dest[BLOCK_BYTES * block + n..]
  {
    hide Masked, Chunk;
    MaskedGrows(key, src, block, n);
    var p := BLOCK_BYTES * block;
    var head, tail := Masked(key, src[..p]), dest[p..];
    assert (head + tail)[..p] == head;
    assert (head + tail)[p + n..] == dest[p + n..];
  }

  /** Up to 256 bytes the call writes the masked payload and nothing else. */
  lemma {:induction false} WrittenIsMasked(key: KeyStream, src: seq<bv8>, dest: seq<bv8>, size: nat)
    requires size <= 256 && size <= |src| && size <= |dest|
    ensures Written(key, src, dest, size) == Masked(key, src[..size]) + dest[size..]
  {
    hide Add, Put;
    WholeIsMasked(key, src, dest, size / 16);
    if size < 256 {
      PutExtends(key, src, dest, size / 16, size % 16);
    } else {
      NothingPut(key, src, Whole(key, src, dest, 16), 16);
    }
  }

  lemma {:induction false} NothingPut(key: KeyStream, src: seq<bv8>, dest: seq<bv8>, block: nat)
    requires |src| >= 256 && |dest| >= 256
    ensures Put(key, src, dest, block, 0) == dest
  {
    hide Add;
  }

  /** Beyond 256 bytes nothing is ever written: the position starts again at the beginning. */
  lemma {:induction false} NothingBeyond(key: KeyStream, src: seq<bv8>, dest: seq<bv8>, size: nat)
    requires 256 <= size <= |src| && size <= |dest|
    ensures Written(key, src, dest, size)[256..] == dest[256..]
  {
    hide Add, Put;
    WholeBeyond(key, src, dest, size / 16);
    PutBeyond(key, src, Whole(key, src, dest, size / 16), size / 16, size % 16);
  }

  lemma {:induction false} WholeBeyond(key: KeyStream, src: seq<bv8>, dest: seq<bv8>, n: nat)
    requires BLOCK_BYTES * n <= |src| && BLOCK_BYTES * n <= |dest| && |src| >= 256 && |dest| >= 256
    ensures Whole(key, src, dest, n)[256..] == dest[256..]
  {
    hide Add, Put;
    if n > 0 {
      WholeBeyond(key, src, dest, n - 1);
      PutBeyond(key, src, Whole(key, src, dest, n - 1), n - 1, BLOCK_BYTES);
    }
  }

  lemma {:induction false} PutBeyond(key: KeyStream, src: seq<bv8>, dest: seq<bv8>, block: nat, n: nat)
    requires n <= BLOCK_BYTES && |src| >= 256 && |dest| >= 256
    ensures Put(key, src, dest, block, n)[256..] == dest[256..]
  {
    hide Add;
  }

  /** A call encrypts the payload, whatever the destination held, exactly when the payload has at most 256 bytes. */
  lemma {:induction false} EncryptsIff(key: KeyStream, src: seq<bv8>)
    ensures (forall dest: seq<bv8> | |dest| == |src| ::
               Written(key, src, dest, |src|) == Masked(key, src)) <==> |src| <= 256
  {
    hide Masked, Written;
    if |src| <= 256 {
      forall dest: seq<bv8> | |dest| == |src|
        ensures Written(key, src, dest, |src|) == Masked(key, src)
      {
        WrittenIsMasked(key, src, dest, |src|);
        assert src[..|src|] == src;
      }
    } else {
      var good := Masked(key, src);
      var dest := good[256 := Other(good[256])];
      NothingBeyond(key, src, dest, |src|);
      var r := Written(key, src, dest, |src|);
      assert r[256..][0] == dest[256..][0];
      OtherDiffers(good[256]);
    }
  }

  function Other(x: bv8): bv8 {
    if x == 0 then 1 else 0
  }

  lemma {:induction false} OtherDiffers(x: bv8)
    ensures Other(x) != x
  {
  }

  /** Decryption is the same call: on at most 256 bytes it restores the payload from what encryption wrote. */
  lemma {:induction false} DecryptRestores(key: KeyStream, src: seq<bv8>, dest: seq<bv8>, back: seq<bv8>)
    requires |src| <= 256 && |dest| == |src| == |back|
    ensures Written(key, Written(key, src, dest, |src|), back, |src|) == src
  {
    hide Masked, Written;
    EncryptsIff(key, src);
    var cipher := Written(key, src, dest, |src|);
    EncryptsIff(key, cipher);
    MaskedTwice(key, src);
  }

  /** S_k is the cipher of the counter block with number k. */
  function KeyBlock(w: Schedule, direction: bv8, h: Header, k: nat): (s: seq<bv8>)
    ensures |s| == BLOCK_BYTES
  {
    Bytes(Cipher(w, BlockAt(Prefix(1, direction, h, Low(k)), 0)))
  }

  function FrameStream(w: Schedule, direction: bv8, h: Header): KeyStream {
    (k: nat, i: nat) => if i < BLOCK_BYTES then KeyBlock(w, direction, h, k)[i] else 0
  }

  /** The counter wraps with its byte. */
  lemma {:induction false} LowWraps(n: nat)
    ensures Low(n % 256) == Low(n)
  {
  }

  /** The first 15 bytes of a prefix block. */
  predicate Filled(s: seq<bv8>, first: bv8, direction: bv8, h: Header) {
    |s| >= BLOCK_BYTES && s[0] == first && s[1] == s[2] == s[3] == s[4] == 0 && s[5] == direction &&
    s[6] == h.devAddr.a && s[7] == h.devAddr.b && s[8] == h.devAddr.c && s[9] == h.devAddr.d &&
    s[10] == h.counterLow && s[11] == h.counterHigh && s[12] == s[13] == s[14] == 0
  }

  lemma {:induction false} FilledIsPrefix(s: seq<bv8>, first: bv8, direction: bv8, h: Header)
    requires Filled(s, first, direction, h)
    ensures s[..BLOCK_BYTES] == Prefix(first, direction, h, s[15])
  {
  }

  /** Fills a prefix block all but its last byte. */
  method FillPrefix(a: array<bv8>, first: bv8, direction: bv8, h: Header)
    requires a.Length >= BLOCK_BYTES
    modifies a
    ensures Filled(a[..], first, direction, h)
  {
    a[0] := first;
    a[1] := 0;
    a[2] := 0;
    a[3] := 0;
    a[4] := 0;
    a[5] := direction;
    a[6] := h.devAddr.a;
    a[7] := h.devAddr.b;
    a[8] := h.devAddr.c;
    a[9] := h.devAddr.d;
    a[10] := h.counterLow;
    a[11] := h.counterHigh;
    a[12] := 0;
    a[13] := 0;
    a[14] := 0;
  }

  /** Writes the counter into aBlock and ciphers it. */
  method NextKeyBlock(aes: Engine, a: array<bv8>, s: array<bv8>, key: array<bv8>, blockCnt: nat,
                      direction: bv8, h: Header, ghost k: nat)
    requires aes.Valid() && key.Length >= BLOCK_BYTES && a.Length == BLOCK_BYTES == s.Length
    requires a != s && key != a && key != s && a != aes.roundKey && s != aes.roundKey && key != aes.roundKey
    requires Filled(a[..], 1, direction, h) && blockCnt == k % 256
    modifies aes, aes.roundKey, a, s
    ensures aes.Valid() && Filled(a[..], 1, direction, h)
    ensures s[..] == KeyBlock(Expand(BlockAt(key[..], 0)), direction, h, k)
  {
    hide Cipher, Expand, ScheduleOf, BlockAt, SameOutside, Bytes;
    LowWraps(k);
    a[15] := Low(blockCnt);
    FilledIsPrefix(a[..], 1, direction, h);
    assert a[..] == a[..BLOCK_BYTES];
    aes.AESEncryptBlock(a, s, key);
    WholeBlock(s[..]);
  }

  lemma {:induction false} PutIs(key: KeyStream, src: seq<bv8>, dest: seq<bv8>, r: seq<bv8>, block: nat, n: nat)
    requires n <= BLOCK_BYTES && block % 16 * 16 + n <= |src| && block % 16 * 16 + n <= |dest| == |r|
    requires forall i | 0 <= i < |dest| ::
               r[i] == var p := block % 16 * 16; if p <= i < p + n then Add(src[i], key(block + 1, i - p)) else dest[i]
    ensures r == Put(key, src, dest, block, n)
  {
    hide Add;
  }

  /** The inner loop: n bytes of the destination become source bytes plus key bytes. */
  method XorInto(dest: array<bv8>, src: array<bv8>, s: array<bv8>, len: nat, n: nat, ghost key: KeyStream, ghost block: nat)
    requires n <= BLOCK_BYTES == s.Length && len == block % 16 * 16
    requires len + n <= src.Length && len + n <= dest.Length && dest != src && dest != s
    requires forall i | 0 <= i < n :: s[i] == key(block + 1, i)
    modifies dest
    ensures dest[..] == Put(key, src[..], old(dest[..]), block, n)
  {
    hide Add, Put;
    ghost var was := dest[..];
    for loopCnt := 0 to n
      invariant forall i | 0 <= i < dest.Length ::
                  dest[i] == if len <= i < len + loopCnt then Add(src[i], s[i - len]) else was[i]
    {
      dest[len + loopCnt] := Add(src[len + loopCnt], s[loopCnt]);
    }
    PutIs(key, src[..], was, dest[..], block, n);
  }

  /** One block of the payload: a key block, combined with n bytes of the source at position len. */
  method EncryptBlock(aes: Engine, dest: array<bv8>, src: array<bv8>, a: array<bv8>, s: array<bv8>, key: array<bv8>,
                      blockCnt: nat, len: nat, n: nat, direction: bv8, h: Header, ghost block: nat)
    requires aes.Valid() && key.Length >= BLOCK_BYTES && a.Length == BLOCK_BYTES == s.Length && a != s
    requires key !in {a, s, dest, aes.roundKey} && src !in {a, s, dest, aes.roundKey} && dest !in {a, s, aes.roundKey}
    requires a != aes.roundKey && s != aes.roundKey
    requires Filled(a[..], 1, direction, h) && blockCnt == (block + 1) % 256 && len == block % 16 * 16
    requires n <= BLOCK_BYTES && len + n <= src.Length && len + n <= dest.Length
    modifies aes, aes.roundKey, a, s, dest
    ensures aes.Valid() && Filled(a[..], 1, direction, h)
    ensures dest[..] == Put(FrameStream(Expand(BlockAt(key[..], 0)), direction, h), src[..], old(dest[..]), block, n)
  {
    hide Filled, Expand, BlockAt, KeyBlock, Put;
    NextKeyBlock(aes, a, s, key, blockCnt, direction, h, block + 1);
    XorInto(dest, src, s, len, n, FrameStream(Expand(BlockAt(key[..], 0)), direction, h), block);
  }

  /** The payload of a frame, under the network key on port 0 and the application key elsewhere. */
  method EncryptPayload(aes: Engine, dest: array<bv8>, src: array<bv8>, size: nat, direction: bv8, h: Header, port: bv8,
                        nwkSKey: array<bv8>, appSKey: array<bv8>)
    requires aes.Valid() && nwkSKey.Length >= BLOCK_BYTES && appSKey.Length >= BLOCK_BYTES
    requires size <= src.Length && size <= dest.Length
    requires dest !in {src, nwkSKey, appSKey, aes.roundKey} && aes.roundKey !in {src, nwkSKey, appSKey}
    modifies aes, aes.roundKey, dest
    ensures aes.Valid()
    ensures dest[..] == Written(FrameStream(Expand(BlockAt((if port == 0 then nwkSKey else appSKey)[..], 0)), direction, h),
                                src[..], old(dest[..]), size)
  {
    hide Filled, Expand, BlockAt, FrameStream, Put, Whole, Written;
    var key := if port == 0 then nwkSKey else appSKey;
    ghost var stream := FrameStream(Expand(BlockAt(key[..], 0)), direction, h);
    ghost var was, n := dest[..], 0;
    var a := new bv8[BLOCK_BYTES];
    var s := new bv8[BLOCK_BYTES];
    FillPrefix(a, 1, direction, h);
    NoneWritten(stream, src[..], was);
    var blockCnt, len, left := 1, 0, size;
    while left >= 16
      modifies aes, aes.roundKey, a, s, dest
      invariant left == size - 16 * n && 0 <= n && left >= 0
      invariant blockCnt == (n + 1) % 256 && len == n % 16 * 16
      invariant aes.Valid() && Filled(a[..], 1, direction, h)
      invariant dest[..] == Whole(stream, src[..], was, n)
    {
      Position(n, size);
      WholeNext(stream, src[..], was, n);
      EncryptBlock(aes, dest, src, a, s, key, blockCnt, len, 16, direction, h, n);
      blockCnt := (blockCnt + 1) % 256;
      left := left - 16;
      len := (len + 16) % 256;
      n := n + 1;
    }
    Position(n, size);
    WrittenEnds(stream, src[..], was, size);
    if left > 0 {
      EncryptBlock(aes, dest, src, a, s, key, blockCnt, len, left, direction, h, n);
    } else {
      PutNothing(stream, src[..], dest[..], n);
    }
  }

  /** The uint8_t position and counter after one more block. */
  lemma {:induction false} Position(n: nat, size: nat)
    requires 16 * n <= size
    ensures n % 16 * 16 <= 16 * n
    ensures (n % 16 * 16 + 16) % 256 == (n + 1) % 16 * 16
    ensures ((n + 1) % 256 + 1) % 256 == (n + 2) % 256
    ensures size - 16 * n < 16 ==> size / 16 == n && size % 16 == size - 16 * n
  {
    NextOf(n, 16);
    NextOf(n + 1, 256);
    if n % 16 < 15 {
      assert (n % 16 * 16 + 16) % 256 == n % 16 * 16 + 16;
    }
  }

  lemma {:induction false} NextOf(n: nat, m: nat)
    requires m == 16 || m == 256
    ensures (n + 1) % m == if n % m == m - 1 then 0 else n % m + 1
  {
  }

  lemma {:induction false} NoneWritten(key: KeyStream, src: seq<bv8>, dest: seq<bv8>)
    ensures Whole(key, src, dest, 0) == dest
  {
  }

  lemma {:induction false} WholeNext(key: KeyStream, src: seq<bv8>, dest: seq<bv8>, n: nat)
    requires 16 * n + 16 <= |src| && 16 * n + 16 <= |dest|
    ensures Whole(key, src, dest, n + 1) == Put(key, src, Whole(key, src, dest, n), n, BLOCK_BYTES)
  {
    hide Put;
  }

  lemma {:induction false} WrittenEnds(key: KeyStream, src: seq<bv8>, dest: seq<bv8>, size: nat)
    requires size <= |src| && size <= |dest|
    ensures Written(key, src, dest, size) == Put(key, src, Whole(key, src, dest, size / 16), size / 16, size % 16)
  {
    hide Put, Whole;
  }

  lemma {:induction false} PutNothing(key: KeyStream, src: seq<bv8>, dest: seq<bv8>, block: nat)
    requires block % 16 * 16 <= |src| && block % 16 * 16 <= |dest|
    ensures Put(key, src, dest, block, 0) == dest
  {
    hide Add;
  }

  /** Decryption is encryption. */
  method DecryptPayload(aes: Engine, dest: array<bv8>, src: array<bv8>, size: nat, direction: bv8, h: Header, port: bv8,
                        nwkSKey: array<bv8>, appSKey: array<bv8>)
    requires aes.Valid() && nwkSKey.Length >= BLOCK_BYTES && appSKey.Length >= BLOCK_BYTES
    requires size <= src.Length && size <= dest.Length
    requires dest !in {src, nwkSKey, appSKey, aes.roundKey} && aes.roundKey !in {src, nwkSKey, appSKey}
    modifies aes, aes.roundKey, dest
    ensures aes.Valid()
    ensures dest[..] == Written(FrameStream(Expand(BlockAt((if port == 0 then nwkSKey else appSKey)[..], 0)), direction, h),
                                src[..], old(dest[..]), size)
  {
    hide Expand, BlockAt, FrameStream, Written;
    EncryptPayload(aes, dest, src, size, direction, h, port, nwkSKey, appSKey);
  }

  // ---------------------------------------------------------------- the join-accept message

  /** A message whose first block went through a block function; the rest is copied. */
  function FirstBlock(b: Block, s: seq<bv8>): (r: seq<bv8>)
    requires |s| >= BLOCK_BYTES
    ensures |r| == |s|
  {
    Bytes(b) + s[BLOCK_BYTES..]
  }

  /** The server encrypts with the inverse cipher, so that the device decrypts with the cipher. */
  function JoinEncrypted(w: Schedule, s: seq<bv8>): (r: seq<bv8>)
    requires |s| >= BLOCK_BYTES
    ensures |r| == |s|
  {
    FirstBlock(InvCipher(w, BlockAt(s, 0)), s)
  }

  function JoinDecrypted(w: Schedule, s: seq<bv8>): (r: seq<bv8>)
    requires |s| >= BLOCK_BYTES
    ensures |r| == |s|
  {
    FirstBlock(Cipher(w, BlockAt(s, 0)), s)
  }

  lemma {:induction false} FirstBlockAt(b: Block, s: seq<bv8>)
    requires |s| >= BLOCK_BYTES
    ensures BlockAt(FirstBlock(b, s), 0) == b
    ensures FirstBlock(b, s)[BLOCK_BYTES..] == s[BLOCK_BYTES..]
    ensures FirstBlock(BlockAt(s, 0), s) == s
  {
    BlockOfBytes(b);
    BytesOfBlock(s, 0);
  }

  /** Decryption restores every join-accept message of at least one block, and encryption every received one. */
  lemma {:induction false} JoinRoundTrip(w: Schedule, s: seq<bv8>)
    requires |s| >= BLOCK_BYTES
    ensures JoinDecrypted(w, JoinEncrypted(w, s)) == s
    ensures JoinEncrypted(w, JoinDecrypted(w, s)) == s
  {
    hide Cipher, InvCipher, BlockAt, FirstBlock;
    var b := BlockAt(s, 0);
    FirstBlockAt(InvCipher(w, b), s);
    FirstBlockAt(Cipher(w, b), s);
    CipherUndoes(w, b);
    InvCipherUndoes(w, b);
    SameRest(b, InvCipher(w, b), s);
    SameRest(b, Cipher(w, b), s);
    FirstBlockAt(b, s);
  }

  lemma {:induction false} SameRest(b: Block, c: Block, s: seq<bv8>)
    requires |s| >= BLOCK_BYTES
    ensures FirstBlock(b, FirstBlock(c, s)) == FirstBlock(b, s)
  {
    hide Bytes;
  }

  /** crypto.c's EncryptJoinAccept, for any size. */
  method EncryptJoinAccept(aes: Engine, dest: array<bv8>, src: array<bv8>, size: nat, key: array<bv8>)
    requires aes.Valid() && key.Length >= BLOCK_BYTES && size <= src.Length && size <= dest.Length && BLOCK_BYTES <= dest.Length
    requires dest !in {src, key, aes.roundKey} && aes.roundKey !in {src, key}
    modifies aes, aes.roundKey, dest
    ensures aes.Valid()
    ensures dest[..] == JoinEncrypted(Expand(BlockAt(key[..], 0)), Copied(src[..], old(dest[..]), size))
  {
    hide InvCipher, Expand, BlockAt, Copied, SameOutside, FirstBlock;
    ghost var m := Copied(src[..], dest[..], size);
    aes.EcbDecrypt(src, key, dest, size);
    EcbIsFirstBlock(m, dest[..]);
  }

  /** ... and DecryptJoinAccept. */
  method DecryptJoinAccept(aes: Engine, dest: array<bv8>, src: array<bv8>, size: nat, key: array<bv8>)
    requires aes.Valid() && key.Length >= BLOCK_BYTES && size <= src.Length && size <= dest.Length && BLOCK_BYTES <= dest.Length
    requires dest !in {src, key, aes.roundKey} && aes.roundKey !in {src, key}
    modifies aes, aes.roundKey, dest
    ensures aes.Valid()
    ensures dest[..] == JoinDecrypted(Expand(BlockAt(key[..], 0)), Copied(src[..], old(dest[..]), size))
  {
    hide Cipher, Expand, BlockAt, Copied, SameOutside, FirstBlock;
    ghost var m := Copied(src[..], dest[..], size);
    aes.EcbEncrypt(src, key, dest, size);
    EcbIsFirstBlock(m, dest[..]);
  }

  /** What the block mode leaves in the destination. */
  lemma {:induction false} EcbIsFirstBlock(m: seq<bv8>, r: seq<bv8>)
    requires BLOCK_BYTES <= |m| && SameOutside(m, r, 0)
    ensures r == FirstBlock(BlockAt(r, 0), m)
  {
    BytesOfBlock(r, 0);
  }

  predicate SameSlice(s: seq<bv8>, t: seq<bv8>, i: nat, j: nat) {
    i <= j <= |s| && j <= |t| && s[i..j] == t[i..j]
  }

  lemma {:induction false} SameBlock(s: seq<bv8>, t: seq<bv8>)
    requires BLOCK_BYTES <= |s| && BLOCK_BYTES <= |t|
    ensures SameSlice(s, t, 0, BLOCK_BYTES) <==> BlockAt(s, 0) == BlockAt(t, 0)
  {
    hide BlockAt;
    BytesOfBlock(s, 0);
    BytesOfBlock(t, 0);
    if SameSlice(s, t, 0, BLOCK_BYTES) {
      BlockOfBytes(BlockAt(s, 0));
      BlockOfBytes(BlockAt(t, 0));
    }
  }

  /** A buffer c decrypts to the block of m exactly when it starts with the block that m encrypts to. */
  lemma {:induction false} JoinDecryptsIff(w: Schedule, m: seq<bv8>, c: seq<bv8>)
    requires BLOCK_BYTES <= |m| && BLOCK_BYTES <= |c|
    ensures SameSlice(JoinDecrypted(w, c), m, 0, BLOCK_BYTES) <==> SameSlice(c, JoinEncrypted(w, m), 0, BLOCK_BYTES)
  {
    hide Cipher, InvCipher, BlockAt, FirstBlock, SameSlice;
    var b, e := BlockAt(m, 0), BlockAt(c, 0);
    FirstBlockAt(InvCipher(w, b), m);
    FirstBlockAt(Cipher(w, e), c);
    InvCipherUndoes(w, e);
    CipherUndoes(w, b);
    SameBlock(JoinDecrypted(w, c), m);
    SameBlock(c, JoinEncrypted(w, m));
  }

  /** Of a message sent in a buffer s, `size` bytes are received over a buffer u: the first block arrives
      exactly when all of it is copied, or the rest of u happens to agree. */
  lemma {:induction false} BlockArrivesIff(s: seq<bv8>, u: seq<bv8>, size: nat)
    requires size <= |s| && BLOCK_BYTES <= |s| == |u|
    ensures SameSlice(Copied(s, u, size), s, 0, BLOCK_BYTES) <==> size >= BLOCK_BYTES || SameSlice(u, s, size, BLOCK_BYTES)
  {
    var c := Copied(s, u, size);
    assert c[..size] == s[..size] && c[size..] == u[size..];
    if size >= BLOCK_BYTES {
      assert c[..BLOCK_BYTES] == c[..size][..BLOCK_BYTES];
    } else {
      assert c[..BLOCK_BYTES] == s[..size] + u[size..BLOCK_BYTES];
      assert s[..BLOCK_BYTES] == s[..size] + s[size..BLOCK_BYTES];
    }
  }

  /** From one block on, what is left in the destination is the message itself with its first block enciphered. */
  lemma {:induction false} JoinOfWhole(w: Schedule, s: seq<bv8>, t: seq<bv8>, size: nat)
    requires BLOCK_BYTES <= size <= |s| && size <= |t|
    ensures JoinEncrypted(w, Copied(s, t, size)) == JoinEncrypted(w, s[..size]) + t[size..]
    ensures JoinDecrypted(w, Copied(s, t, size)) == JoinDecrypted(w, s[..size]) + t[size..]
  {
    hide Cipher, InvCipher;
    assert Copied(s, t, size)[BLOCK_BYTES..] == s[..size][BLOCK_BYTES..] + t[size..];
  }

  // ---------------------------------------------------------------- the message integrity code

  /** What the code is computed over: its length is a uint8_t, so 16 + |m| wraps at 256. */
  function MicInput(direction: bv8, h: Header, m: seq<bv8>): seq<bv8> {
    (Prefix(0x49, direction, h, Low(|m|)) + m)[..(BLOCK_BYTES + |m|) % 256]
  }

  /** The whole prefixed message is covered exactly when it has at most 239 bytes. */
  lemma {:induction false} MicCoversIff(direction: bv8, h: Header, m: seq<bv8>)
    ensures MicInput(direction, h, m) == Prefix(0x49, direction, h, Low(|m|)) + m <==> |m| < 240
  {
    hide Prefix;
    var whole := Prefix(0x49, direction, h, Low(|m|)) + m;
    if |m| < 240 {
      assert whole[..|whole|] == whole;
    } else {
      assert |MicInput(direction, h, m)| < 256 <= |whole|;
    }
  }

  /** From 240 to 256 bytes the code does not depend on the message at all, only on its length. */
  lemma {:induction false} MicIgnoresMessage(direction: bv8, h: Header, m: seq<bv8>, m': seq<bv8>)
    requires 240 <= |m| == |m'| <= 256
    ensures MicInput(direction, h, m) == MicInput(direction, h, m')
  {
    hide Prefix;
    var p := Prefix(0x49, direction, h, Low(|m|));
    var n := (BLOCK_BYTES + |m|) % 256;
    assert (p + m)[..n] == p[..n] == (p + m')[..n];
  }

  /** The prefix block and the message in one buffer. */
  method BuildMicInput(msg: array<bv8>, size: nat, direction: bv8, h: Header) returns (b: array<bv8>)
    requires size <= 256 && size <= msg.Length
    ensures fresh(b) && b.Length == 256 + BLOCK_BYTES
    ensures b[..BLOCK_BYTES + size] == Prefix(0x49, direction, h, Low(size)) + msg[..size]
  {
    hide Filled, Prefix;
    b := new bv8[256 + BLOCK_BYTES];
    FillPrefix(b, 0x49, direction, h);
    FilledKeeps(b[..], Low(size), direction, h);
    b[15] := Low(size);
    FilledIsPrefix(b[..], 0x49, direction, h);
    forall k | 0 <= k < size {
      b[BLOCK_BYTES + k] := msg[k];
    }
    assert b[..BLOCK_BYTES] == Prefix(0x49, direction, h, Low(size));
  }

  method GenerateMIC(aes: Engine, msg: array<bv8>, size: nat, direction: bv8, h: Header, nwkSKey: array<bv8>, mic: array<bv8>)
    requires aes.Valid() && nwkSKey.Length >= BLOCK_BYTES && size <= 256 && size <= msg.Length && mic.Length >= 4
    requires aes.roundKey !in {msg, nwkSKey, mic}
    modifies aes, aes.roundKey, mic
    ensures aes.Valid() && aes.Keys() == Expand(old(BlockAt(nwkSKey[..], 0)))
    ensures mic[..] == Bytes(Mac(aes.Keys(), MicInput(direction, h, old(msg[..size]))))[..4] + old(mic[4..])
  {
    hide Expand, BlockAt, Mac, Bytes, Prefix, ScheduleOf;
    var b := BuildMicInput(msg, size, direction, h);
    assert b[..(size + 16) % 256] == b[..BLOCK_BYTES + size][..(size + 16) % 256];
    AES128_CMAC(aes, nwkSKey, b, (size + 16) % 256, mic);
  }

  lemma {:induction false} FilledKeeps(s: seq<bv8>, x: bv8, direction: bv8, h: Header)
    requires Filled(s, 0x49, direction, h)
    ensures Filled(s[15 := x], 0x49, direction, h)
  {
  }

  // ---------------------------------------------------------------- the blocks of section 4.3.3.1 and 4.4 of LoRaWAN 1.0

  function Zeros(n: nat): (s: seq<bv8>)
    ensures |s| == n
  {
    seq(n, _ => 0)
  }

  /** One byte that tells the use, four zeros, direction, address, counter, three more zeros and any number. */
  predicate IsFrameBlock(s: seq<bv8>, use: bv8, direction: bv8, h: Header) {
    && |s| == BLOCK_BYTES && s[0] == use && s[1..5] == Zeros(4) && s[5] == direction
    && s[6..10] == WordBytes(h.devAddr) && s[10..12] == [h.counterLow, h.counterHigh] && s[12..15] == Zeros(3)
  }

  /** What is ciphered for the key stream, and what the code of a frame is computed over. */
  lemma {:induction false} BlockLayout(w: Schedule, direction: bv8, h: Header, k: nat, m: seq<bv8>, a: seq<bv8>, b: seq<bv8>)
    requires IsFrameBlock(a, 0x01, direction, h) && a[15] as nat == k % 256
    requires IsFrameBlock(b, 0x49, direction, h) && b[15] as nat == |m| % 256
    ensures KeyBlock(w, direction, h, k) == Bytes(Cipher(w, BlockAt(a, 0)))
    ensures |m| < 240 ==> MicInput(direction, h, m) == b + m
  {
    hide Bytes, Cipher, BlockAt, MicInput, Low;
    LowIs(k, a[15]);
    LowIs(|m|, b[15]);
    PrefixIs(a, 0x01, direction, h);
    PrefixIs(b, 0x49, direction, h);
    MicCoversIff(direction, h, m);
  }

  lemma {:induction false} LowIs(k: nat, b: bv8)
    requires b as nat == k % 256
    ensures Low(k) == b
  {
  }

  lemma {:induction false} PrefixIs(s: seq<bv8>, use: bv8, direction: bv8, h: Header)
    requires IsFrameBlock(s, use, direction, h)
    ensures s == Prefix(use, direction, h, s[15])
  {
    hide Zeros, WordBytes, Prefix;
    ZerosAt(4);
    ZerosAt(3);
    assert s[1..5][0] == s[1] && s[1..5][1] == s[2] && s[1..5][2] == s[3] && s[1..5][3] == s[4];
    WordAt(s[6..10], h.devAddr);
    assert s[10..12][0] == s[10] && s[10..12][1] == s[11];
    assert s[12..15][0] == s[12] && s[12..15][1] == s[13] && s[12..15][2] == s[14];
    FilledIsPrefix(s, use, direction, h);
    assert s[..BLOCK_BYTES] == s;
  }

  lemma {:induction false} ZerosAt(n: nat)
    ensures forall k | 0 <= k < n :: Zeros(n)[k] == 0
  {
  }

  lemma {:induction false} WordAt(s: seq<bv8>, w: Word)
    requires s == WordBytes(w)
    ensures |s| == 4 && s[0] == w.a && s[1] == w.b && s[2] == w.c && s[3] == w.d
  {
  }

  /** Under one key no two blocks of the key stream are the same, unless they are of one frame and their numbers agree:
      256 numbers give 256 different blocks, and then the numbers start again. */
  lemma {:induction false} KeyBlocksDiffer(w: Schedule, direction: bv8, h: Header, k: nat, b: bv8,
                                           direction': bv8, h': Header, k': nat, b': bv8)
    requires b as nat == k % 256 && b' as nat == k' % 256
    ensures KeyBlock(w, direction, h, k) == KeyBlock(w, direction', h', k') <==> direction == direction' && h == h' && b == b'
  {
    hide Bytes, Cipher, InvCipher, BlockAt, Prefix, Low;
    LowIs(k, b);
    LowIs(k', b');
    var s, s' := Prefix(1, direction, h, b), Prefix(1, direction', h', b');
    PrefixesDiffer(direction, h, b, direction', h', b');
    if KeyBlock(w, direction, h, k) == KeyBlock(w, direction', h', k') {
      BlockOfBytes(Cipher(w, BlockAt(s, 0)));
      BlockOfBytes(Cipher(w, BlockAt(s', 0)));
      InvCipherUndoes(w, BlockAt(s, 0));
      InvCipherUndoes(w, BlockAt(s', 0));
      WholeBlock(s);
      WholeBlock(s');
    }
  }

  lemma {:induction false} PrefixesDiffer(direction: bv8, h: Header, number: bv8, direction': bv8, h': Header, number': bv8)
    ensures Prefix(1, direction, h, number) == Prefix(1, direction', h', number')
            <==> direction == direction' && h == h' && number == number'
  {
    var s, s' := Prefix(1, direction, h, number), Prefix(1, direction', h', number');
    if s == s' {
      assert s[5] == s'[5] && s[6] == s'[6] && s[7] == s'[7] && s[8] == s'[8] && s[9] == s'[9];
      assert s[10] == s'[10] && s[11] == s'[11] && s[15] == s'[15];
    }
  }

  /** One byte of an encrypted payload: the blocks of the key stream are numbered from 1. */
  lemma {:induction false} PayloadByte(w: Schedule, direction: bv8, h: Header, src: seq<bv8>, dest: seq<bv8>, i: nat, a: seq<bv8>)
    requires i < |src| == |dest| && |src| <= 256
    requires IsFrameBlock(a, 0x01, direction, h) && a[15] as nat == i / 16 + 1
    ensures Written(FrameStream(w, direction, h), src, dest, |src|)[i] == Add(src[i], Bytes(Cipher(w, BlockAt(a, 0)))[i % 16])
  {
    hide Bytes, Cipher, BlockAt, Low, Written, Prefix, Add, FrameStream;
    LowIs(i / 16 + 1, a[15]);
    PrefixIs(a, 0x01, direction, h);
    WrittenIsMasked(FrameStream(w, direction, h), src, dest, |src|);
    assert src[..|src|] == src;
    StreamByte(w, direction, h, i / 16 + 1, i % 16);
  }

  lemma {:induction false} StreamByte(w: Schedule, direction: bv8, h: Header, k: nat, i: nat)
    requires i < BLOCK_BYTES
    ensures FrameStream(w, direction, h)(k, i) == KeyBlock(w, direction, h, k)[i]
  {
    hide KeyBlock;
  }
}
