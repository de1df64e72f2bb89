/** The concrete oracle behind the correctness lemmas: a plaintext padded as in
    PKCS#7 (RFC 5652 section 6.3), cut into blocks of `bs` bytes, each block mapped
    through an injective block function (AES under one fixed key is a permutation). */
module EcbModel {
  import opened Common
  import opened Arith

  /** PKCS#7 padding: between 1 and bs bytes, each holding the number of bytes added. */
  function Pad(p: Bytes, bs: nat): (r: Bytes)
    requires 0 < bs < 256
    ensures |r| == (|p| / bs + 1) * bs
    ensures 0 < |r| - |p| <= bs
    ensures r[..|p|] == p
    ensures forall i :: 0 <= i < |p| ==> r[i] == p[i]
    ensures forall i :: |p| <= i < |r| ==> r[i] == (|r| - |p|) as bv8
  {
    var n := bs - |p| % bs;
    p + Repeat(n, n as bv8)
  }

  /** The padded plaintext covers every whole block that holds a plaintext byte. */
  lemma PadCovers(p: Bytes, bs: nat, start: nat, x: nat)
    requires 0 < bs < 256 && start % bs == 0 && start <= x < start + bs && x <= |p|
    ensures start + bs <= |Pad(p, bs)|
  {
    MulDivCancel(|p| / bs + 1, bs);
    var q := start / bs;
    assert start == q * bs;
    MultipleAbove(|Pad(p, bs)|, bs, q, x);
  }

  /** Rust's `chunks(bs)`: consecutive pieces of bs bytes, the last one possibly shorter. */
  function Chunks(s: Bytes, bs: nat): (cs: seq<Bytes>)
    requires bs > 0
    decreases |s|
  {
    if |s| == 0 then []
    else
      var n := Min(bs, |s|);
      [s[..n]] + Chunks(s[n..], bs)
  }

  /** The pieces joined back together. */
  function Concat(cs: seq<Bytes>): Bytes {
    if |cs| == 0 then [] else cs[0] + Concat(cs[1..])
  }

  /** `chunks` splits without loss: the pieces have 1 to bs bytes, all but the last
      exactly bs, and joined back together they are the input. */
  lemma {:induction false} ChunksJoin(s: Bytes, bs: nat)
    requires bs > 0
    ensures Concat(Chunks(s, bs)) == s
    ensures forall k :: 0 <= k < |Chunks(s, bs)| ==> 0 < |Chunks(s, bs)[k]| <= bs
    ensures forall k :: 0 <= k < |Chunks(s, bs)| - 1 ==> |Chunks(s, bs)[k]| == bs
    decreases |s|
  {
    if |s| > 0 {
      var n := Min(bs, |s|);
      var rest := Chunks(s[n..], bs);
      ChunksJoin(s[n..], bs);
      var cs := Chunks(s, bs);
      assert cs == [s[..n]] + rest;
      assert cs[1..] == rest;
      assert s == s[..n] + s[n..];
      forall k | 1 <= k < |cs| ensures cs[k] == rest[k - 1] { }
    }
  }

  lemma {:induction false} ChunkAt(s: Bytes, bs: nat, start: nat)
    requires Aligned(start, bs) && start + bs <= |s|
    ensures start / bs < |Chunks(s, bs)| && Chunks(s, bs)[start / bs] == s[start .. start + bs]
    decreases start
  {
    assert Chunks(s, bs) == [s[..bs]] + Chunks(s[bs..], bs);
    if start == 0 {
      MulDivCancel(0, bs);
    } else {
      AlignedIff(start, bs);
      MultipleStep(start, bs);
      var rest := s[bs..];
      ChunkAt(rest, bs, start - bs);
      assert rest[start - bs .. start] == s[start .. start + bs];
    }
  }

  /** The block function is length preserving on blocks and injective on them. */
  ghost predicate IsBlockCipher(E: Bytes -> Bytes, bs: nat) {
    KeepsBlockLength(E, bs) && InjectiveOnBlocks(E, bs)
  }

  ghost predicate KeepsBlockLength(E: Bytes -> Bytes, bs: nat) {
    forall b :: |b| == bs ==> |E(b)| == bs
  }

  ghost predicate InjectiveOnBlocks(E: Bytes -> Bytes, bs: nat) {
    forall a, b :: Collide(E, bs, a, b) ==> a == b
  }

  /** Distinct blocks have distinct ciphertext blocks. */
  lemma Distinct(E: Bytes -> Bytes, bs: nat, a: Bytes, b: Bytes)
    requires InjectiveOnBlocks(E, bs) && |a| == bs && |b| == bs && a != b
    ensures E(a) != E(b)
  {
    assert Collide(E, bs, a, b) ==> a == b;
  }

  /** Blocks with one ciphertext block are one block. */
  lemma Injective(E: Bytes -> Bytes, bs: nat, a: Bytes, b: Bytes)
    requires InjectiveOnBlocks(E, bs) && |a| == bs && |b| == bs && E(a) == E(b)
    ensures a == b
  {
    assert Collide(E, bs, a, b);
  }

  /** Two blocks with one ciphertext block. */
  ghost predicate Collide(E: Bytes -> Bytes, bs: nat, a: Bytes, b: Bytes) {
    |a| == bs && |b| == bs && E(a) == E(b)
  }

  /** Electronic codebook: every block is enciphered on its own. */
  function EcbMap(E: Bytes -> Bytes, bs: nat, p: Bytes): Bytes
    requires bs > 0
    decreases |p|
  {
    if |p| == 0 then []
    else
      var n := Min(bs, |p|);
      E(p[..n]) + EcbMap(E, bs, p[n..])
  }

  /** ECB keeps the length of a whole number of blocks. */
  lemma {:induction false} EcbMapLength(E: Bytes -> Bytes, bs: nat, p: Bytes)
    requires KeepsBlockLength(E, bs) && Aligned(|p|, bs)
    ensures |EcbMap(E, bs, p)| == |p|
    decreases |p|
  {
    if |p| > 0 {
      assert |E(p[..bs])| == bs;
      EcbMapLength(E, bs, p[bs..]);
    }
  }

  lemma {:induction false} EcbMapBlock(E: Bytes -> Bytes, bs: nat, p: Bytes, start: nat)
    requires KeepsBlockLength(E, bs) && Aligned(|p|, bs) && Aligned(start, bs) && start + bs <= |p|
    ensures |EcbMap(E, bs, p)| == |p|
    ensures EcbMap(E, bs, p)[start .. start + bs] == E(p[start .. start + bs])
    decreases |p|
  {
    EcbMapLength(E, bs, p);
    var rest := p[bs..];
    var head := E(p[..bs]);
    assert |head| == bs;
    var c := EcbMap(E, bs, p);
    assert c == head + EcbMap(E, bs, rest);
    if start == 0 {
      assert p[..bs] == p[start .. start + bs];
    } else {
      EcbMapBlock(E, bs, rest, start - bs);
      assert rest[start - bs .. start] == p[start .. start + bs];
      var tail := EcbMap(E, bs, rest);
      assert c[bs..] == tail;
      assert c[start .. start + bs] == c[bs..][start - bs .. start];
    }
  }

  /** The whole fixed-codebook encryption of a plaintext. */
  function EcbEncrypt(E: Bytes -> Bytes, bs: nat, p: Bytes): Bytes
    requires 0 < bs < 256
  {
    EcbMap(E, bs, Pad(p, bs))
  }

  lemma EncryptLength(E: Bytes -> Bytes, bs: nat, p: Bytes)
    requires 0 < bs < 256 && KeepsBlockLength(E, bs)
    ensures |EcbEncrypt(E, bs, p)| == |Pad(p, bs)| == (|p| / bs + 1) * bs
  {
    var x := Pad(p, bs);
    MulDivCancel(|p| / bs + 1, bs);
    AlignedIff(|x|, bs);
    EcbMapBlock(E, bs, x, 0);
  }

  /** Ciphertext block q is the block function applied to padded plaintext block q. */
  lemma EncryptBlock(E: Bytes -> Bytes, bs: nat, p: Bytes, start: nat)
    requires 0 < bs < 256 && KeepsBlockLength(E, bs) && start % bs == 0 && start + bs <= |Pad(p, bs)|
    ensures |EcbEncrypt(E, bs, p)| == |Pad(p, bs)|
    ensures EcbEncrypt(E, bs, p)[start .. start + bs] == E(Pad(p, bs)[start .. start + bs])
    ensures start / bs < |Chunks(EcbEncrypt(E, bs, p), bs)|
    ensures Chunks(EcbEncrypt(E, bs, p), bs)[start / bs] == E(Pad(p, bs)[start .. start + bs])
  {
    MulDivCancel(|p| / bs + 1, bs);
    AlignedIff(|Pad(p, bs)|, bs);
    AlignedIff(start, bs);
    EcbMapBlock(E, bs, Pad(p, bs), start);
    ChunkAt(EcbEncrypt(E, bs, p), bs, start);
  }

  /** A block that lies inside the unpadded plaintext is enciphered as it is. */
  lemma EncryptPlainBlock(E: Bytes -> Bytes, bs: nat, p: Bytes, start: nat)
    requires 0 < bs < 256 && KeepsBlockLength(E, bs) && start % bs == 0 && start + bs <= |p|
    ensures |EcbEncrypt(E, bs, p)| == |Pad(p, bs)|
    ensures EcbEncrypt(E, bs, p)[start .. start + bs] == E(p[start .. start + bs])
    ensures start / bs < |Chunks(EcbEncrypt(E, bs, p), bs)|
    ensures Chunks(EcbEncrypt(E, bs, p), bs)[start / bs] == E(p[start .. start + bs])
  {
    EncryptBlock(E, bs, p, start);
    assert Pad(p, bs)[start .. start + bs] == p[start .. start + bs];
  }

  /** An oracle that enciphers prefix ++ data ++ suffix in this model. */
  ghost predicate IsEcbOracle(o: Oracle, E: Bytes -> Bytes, bs: nat, prefix: Bytes, suffix: Bytes) {
    && 0 < bs < 256
    && IsBlockCipher(E, bs)
    && forall d :: Encrypts(o, E, bs, prefix, suffix, d)
  }

  /** The oracle's answer to d is the encryption of prefix ++ d ++ suffix. */
  ghost predicate Encrypts(o: Oracle, E: Bytes -> Bytes, bs: nat, prefix: Bytes, suffix: Bytes, d: Bytes)
    requires 0 < bs < 256
  {
    o(d) == EcbEncrypt(E, bs, prefix + d + suffix)
  }
}
