/** What the attack engine computes against the padded ECB model: an oracle that
    enciphers prefix ++ data ++ suffix under one fixed block function. Throughout,
    T is the combined length of the hidden prefix and suffix. */
module AttackOnEcb {
  import opened Common
  import opened Arith
  import opened EcbModel
  import opened Attack

  // ---------------------------------------------------------------------------
  // The ciphertext, block by block

  /** Ciphertext block `start / bs` is the block function applied to the padded
      plaintext block at start. */
  lemma EcbSlice(o: Oracle, E: Bytes -> Bytes, bs: nat, P: Bytes, S: Bytes, d: Bytes, start: nat)
    requires IsEcbOracle(o, E, bs, P, S)
    requires start % bs == 0 && start + bs <= |Pad(P + d + S, bs)|
    ensures |o(d)| == |Pad(P + d + S, bs)|
    ensures o(d)[start .. start + bs] == E(Pad(P + d + S, bs)[start .. start + bs])
    ensures start / bs < |Chunks(o(d), bs)|
    ensures Chunks(o(d), bs)[start / bs] == E(Pad(P + d + S, bs)[start .. start + bs])
  {
    assert Encrypts(o, E, bs, P, S, d);
    EncryptBlock(E, bs, P + d + S, start);
  }

  /** The ciphertext of n zero bytes is one block longer than the whole blocks of T + n. */
  ghost predicate LengthLaw(o: Oracle, bs: nat, T: nat) {
    bs > 0 && forall n: nat :: OutLen(o, n) == ((T + n) / bs + 1) * bs
  }

  lemma LengthLawEcb(o: Oracle, E: Bytes -> Bytes, bs: nat, P: Bytes, S: Bytes)
    requires IsEcbOracle(o, E, bs, P, S)
    ensures LengthLaw(o, bs, |P| + |S|)
  {
    forall n: nat
      ensures OutLen(o, n) == ((|P| + |S| + n) / bs + 1) * bs
    {
      assert Encrypts(o, E, bs, P, S, Zeros(n));
      EncryptLength(E, bs, P + Zeros(n) + S);
    }
  }

  /** With T + n inside block q, the ciphertext holds q + 1 blocks. */
  lemma OutLenInBlock(o: Oracle, bs: nat, T: nat, n: nat, q: nat)
    requires LengthLaw(o, bs, T)
    requires q * bs <= T + n < q * bs + bs
    ensures OutLen(o, n) == q * bs + bs
  {
    DivUnique(T + n, bs, q);
    assert (q + 1) * bs == q * bs + bs;
  }

  /** Fewer than bs - T % bs more bytes stay inside the block of T. */
  lemma SameBlock(T: nat, bs: nat, j: nat)
    requires 0 < bs && j < bs - T % bs
    ensures T / bs * bs <= T + j < T / bs * bs + bs
  {
    assert T == T / bs * bs + T % bs;
  }

  /** From bs - T % bs up to bs more bytes land in the next block. */
  lemma NextBlock(T: nat, bs: nat, j: nat)
    requires 0 < bs && bs - T % bs <= j <= bs
    ensures (T / bs + 1) * bs <= T + j < (T / bs + 1) * bs + bs
    ensures (T / bs + 1) * bs == T / bs * bs + bs
  {
    assert T == T / bs * bs + T % bs;
  }

  /** Fewer than bs - T % bs zero bytes leave the length as it is. */
  lemma NoChangeBefore(o: Oracle, bs: nat, T: nat, j: nat)
    requires LengthLaw(o, bs, T)
    requires j < bs - T % bs
    ensures OutLen(o, j) == OutLen(o, 0) == T / bs * bs + bs
  {
    SameBlock(T, bs, 0);
    SameBlock(T, bs, j);
    OutLenInBlock(o, bs, T, 0, T / bs);
    OutLenInBlock(o, bs, T, j, T / bs);
  }

  /** From bs - T % bs up to bs zero bytes the ciphertext holds one block more. */
  lemma ChangeFrom(o: Oracle, bs: nat, T: nat, j: nat)
    requires LengthLaw(o, bs, T)
    requires bs - T % bs <= j <= bs
    ensures OutLen(o, j) == OutLen(o, 0) + bs
  {
    SameBlock(T, bs, 0);
    NextBlock(T, bs, j);
    OutLenInBlock(o, bs, T, 0, T / bs);
    OutLenInBlock(o, bs, T, j, T / bs + 1);
  }

  /** The length first changes after bs - T % bs zero bytes, by exactly one block,
      and the initial length exceeds T by that number of bytes. */
  lemma FirstChangeLaw(o: Oracle, bs: nat, T: nat)
    requires LengthLaw(o, bs, T)
    ensures LengthChangesWithin(o, bs)
    ensures FirstChange(o, bs) == bs - T % bs
    ensures FirstChange(o, bs) <= OutLen(o, 0) && OutLen(o, 0) - FirstChange(o, bs) == T
    ensures OutLen(o, FirstChange(o, bs)) == OutLen(o, 0) + bs
  {
    var m := bs - T % bs;
    NoChangeBefore(o, bs, T, 0);
    forall j | 1 <= j < m
      ensures !ChangesAt(o, j)
    {
      NoChangeBefore(o, bs, T, j);
    }
    ChangeFrom(o, bs, T, m);
    ChangeFrom(o, bs, T, bs);
    FirstChangeIsLeast(o, bs, m);
    InitialGap(T, bs);
  }

  lemma FirstChangeEcb(o: Oracle, E: Bytes -> Bytes, bs: nat, P: Bytes, S: Bytes)
    requires IsEcbOracle(o, E, bs, P, S)
    ensures LengthChangesWithin(o, bs)
    ensures FirstChange(o, bs) == bs - (|P| + |S|) % bs
    ensures FirstChange(o, bs) <= OutLen(o, 0) && OutLen(o, 0) - FirstChange(o, bs) == |P| + |S|
    ensures OutLen(o, FirstChange(o, bs)) == OutLen(o, 0) + bs
  {
    LengthLawEcb(o, E, bs, P, S);
    FirstChangeLaw(o, bs, |P| + |S|);
  }

  /** The whole blocks of T plus one block, less bs - T % bs, is T. */
  lemma InitialGap(T: nat, bs: nat)
    requires bs > 0
    ensures bs - T % bs <= T / bs * bs + bs
    ensures T / bs * bs + bs - (bs - T % bs) == T
  {
    assert T == T / bs * bs + T % bs;
  }

  // ---------------------------------------------------------------------------
  // Length probes

  /** `detect_blocksize` finds the block size. */
  lemma BlocksizeOnEcb(o: Oracle, E: Bytes -> Bytes, bs: nat, P: Bytes, S: Bytes)
    requires IsEcbOracle(o, E, bs, P, S)
    ensures LengthChangesWithin(o, bs)
    ensures BlocksizeOf(o, bs) == Success(bs)
  {
    FirstChangeEcb(o, E, bs, P, S);
  }

  /** `detect_suffix_len` finds the combined length of prefix and suffix (the suffix
      length when there is no prefix). */
  lemma SuffixLenOnEcb(o: Oracle, E: Bytes -> Bytes, bs: nat, P: Bytes, S: Bytes)
    requires IsEcbOracle(o, E, bs, P, S)
    ensures LengthChangesWithin(o, bs)
    ensures SuffixLenOf(o, bs) == Success(|P| + |S|)
  {
    FirstChangeEcb(o, E, bs, P, S);
  }

  /** `detect_padding` as written: when T % bs == bs - 1 the one-byte ciphertext is a
      block longer and the unsigned subtraction underflows; otherwise it answers true. */
  lemma PaddingOnEcb(o: Oracle, E: Bytes -> Bytes, bs: nat, P: Bytes, S: Bytes)
    requires IsEcbOracle(o, E, bs, P, S)
    ensures LengthChangesWithin(o, bs)
    ensures (|P| + |S|) % bs == bs - 1 ==> PaddingOf(o, bs) == Failure(Underflow)
    ensures (|P| + |S|) % bs != bs - 1 ==> PaddingOf(o, bs) == Success(true)
  {
    BlocksizeOnEcb(o, E, bs, P, S);
    if (|P| + |S|) % bs == bs - 1 {
      LengthLawEcb(o, E, bs, P, S);
      ChangeFrom(o, bs, |P| + |S|, 1);
    } else {
      LengthLawEcb(o, E, bs, P, S);
      NoChangeBefore(o, bs, |P| + |S|, 1);
    }
  }

  /** The corrected padding probe answers true on every ECB oracle. */
  lemma PaddingCorrectedOnEcb(o: Oracle, E: Bytes -> Bytes, bs: nat, P: Bytes, S: Bytes)
    requires IsEcbOracle(o, E, bs, P, S)
    ensures PaddingCorrected(o, bs)
  {
    if (|P| + |S|) % bs == bs - 1 {
      LengthLawEcb(o, E, bs, P, S);
      ChangeFrom(o, bs, |P| + |S|, 1);
      MulDivCancel(1, bs);
    } else {
      LengthLawEcb(o, E, bs, P, S);
      NoChangeBefore(o, bs, |P| + |S|, 1);
      MulDivCancel(0, bs);
    }
  }

  /** `detect_prefix_plus_suffix_len` as written answers T + 1, one more than the
      combined length, whenever `detect_padding` does not underflow. */
  lemma PrefixPlusSuffixOnEcb(o: Oracle, E: Bytes -> Bytes, bs: nat, P: Bytes, S: Bytes)
    requires IsEcbOracle(o, E, bs, P, S)
    ensures LengthChangesWithin(o, bs)
    ensures (|P| + |S|) % bs == bs - 1 ==> PrefixPlusSuffixOf(o, bs) == Failure(Underflow)
    ensures (|P| + |S|) % bs != bs - 1 ==> PrefixPlusSuffixOf(o, bs) == Success(|P| + |S| + 1)
  {
    PaddingOnEcb(o, E, bs, P, S);
    if (|P| + |S|) % bs != bs - 1 {
      FirstChangeEcb(o, E, bs, P, S);
      var index := FirstChange(o, bs);
      assert ChangesAt(o, index);
      assert OutLen(o, 0) - index + 1 == |P| + |S| + 1;
    }
  }

  /** The corrected length probe answers T. */
  lemma PrefixPlusSuffixCorrectedOnEcb(o: Oracle, E: Bytes -> Bytes, bs: nat, P: Bytes, S: Bytes)
    requires IsEcbOracle(o, E, bs, P, S)
    ensures LengthChangesWithin(o, bs)
    ensures PrefixPlusSuffixCorrectedOf(o, bs) == Success(|P| + |S|)
  {
    PaddingCorrectedOnEcb(o, E, bs, P, S);
    BlocksizeOnEcb(o, E, bs, P, S);
    FirstChangeEcb(o, E, bs, P, S);
    var index := FirstChange(o, bs);
    assert ChangesAt(o, index);
  }

  // ---------------------------------------------------------------------------
  // Prefix detection

  /** A block that lies inside the prefix is enciphered alike for the data [0] and [1]. */
  lemma PrefixChunk(o: Oracle, E: Bytes -> Bytes, bs: nat, P: Bytes, S: Bytes, start: nat)
    requires IsEcbOracle(o, E, bs, P, S)
    requires start % bs == 0 && start + bs <= |P|
    ensures start / bs < |Chunks(o([0]), bs)| && start / bs < |Chunks(o([1]), bs)|
    ensures Chunks(o([0]), bs)[start / bs] == Chunks(o([1]), bs)[start / bs]
  {
    var p0, p1 := P + [0] + S, P + [1] + S;
    EcbSlice(o, E, bs, P, S, [0], start);
    EcbSlice(o, E, bs, P, S, [1], start);
    assert Pad(p0, bs)[start .. start + bs] == Pad(p1, bs)[start .. start + bs] by {
      forall i | start <= i < start + bs
        ensures Pad(p0, bs)[i] == Pad(p1, bs)[i]
      {
        assert p0[i] == P[i] == p1[i];
      }
    }
  }

  /** The block holding the first data byte differs between the data [0] and [1]. */
  lemma DataChunk(o: Oracle, E: Bytes -> Bytes, bs: nat, P: Bytes, S: Bytes, start: nat)
    requires IsEcbOracle(o, E, bs, P, S)
    requires start % bs == 0 && start <= |P| < start + bs
    ensures start / bs < |Chunks(o([0]), bs)| && start / bs < |Chunks(o([1]), bs)|
    ensures Chunks(o([0]), bs)[start / bs] != Chunks(o([1]), bs)[start / bs]
  {
    var p0, p1 := P + [0] + S, P + [1] + S;
    PadCovers(p0, bs, start, |P|);
    EcbSlice(o, E, bs, P, S, [0], start);
    EcbSlice(o, E, bs, P, S, [1], start);
    var b0, b1 := Pad(p0, bs)[start .. start + bs], Pad(p1, bs)[start .. start + bs];
    assert b0[|P| - start] == p0[|P|] == 0;
    assert b1[|P| - start] == p1[|P|] == 1;
    Distinct(E, bs, b0, b1);
  }

  /** All blocks before block |P| / bs agree between the data [0] and [1]. */
  lemma PrefixChunksAgree(o: Oracle, E: Bytes -> Bytes, bs: nat, P: Bytes, S: Bytes, j: nat)
    requires IsEcbOracle(o, E, bs, P, S) && j < |P| / bs
    ensures j < |Chunks(o([0]), bs)| && j < |Chunks(o([1]), bs)|
    ensures Chunks(o([0]), bs)[j] == Chunks(o([1]), bs)[j]
  {
    BlockBelow(j, bs, |P|);
    PrefixChunk(o, E, bs, P, S, j * bs);
  }

  /** Block |P| / bs is the first at which the ciphertexts of [0] and [1] differ. */
  lemma FirstDiffEcb(o: Oracle, E: Bytes -> Bytes, bs: nat, P: Bytes, S: Bytes)
    requires IsEcbOracle(o, E, bs, P, S)
    ensures FirstDiff(Chunks(o([0]), bs), Chunks(o([1]), bs)) == Some(|P| / bs)
  {
    var k := |P| / bs;
    var xs, ys := Chunks(o([0]), bs), Chunks(o([1]), bs);
    BlockOf(|P|, bs);
    DataChunk(o, E, bs, P, S, k * bs);
    forall j | 0 <= j < k
      ensures xs[j] == ys[j]
    {
      PrefixChunksAgree(o, E, bs, P, S, j);
    }
    FirstDiffAt(xs, ys, k);
  }

  /** `detect_prefix_blocks_count` finds the number of whole blocks in the prefix. */
  lemma PrefixBlocksCountOnEcb(o: Oracle, E: Bytes -> Bytes, bs: nat, P: Bytes, S: Bytes)
    requires IsEcbOracle(o, E, bs, P, S)
    ensures LengthChangesWithin(o, bs)
    ensures PrefixBlocksCountOf(o, bs) == Success(|P| / bs)
  {
    BlocksizeOnEcb(o, E, bs, P, S);
    FirstDiffEcb(o, E, bs, P, S);
  }

  /** The byte after the prefix and the data: the first suffix byte, or the one-byte
      padding when there is no suffix. */
  function NextByte(S: Bytes): bv8 {
    if |S| > 0 then S[0] else 1
  }

  /** A plaintext one byte short of a block boundary gets one padding byte, 1. */
  lemma PadOneShort(p: Bytes, bs: nat, off: nat)
    requires 0 < bs < 256 && off % bs == 0 && |p| == off + bs - 1
    ensures |Pad(p, bs)| == off + bs && Pad(p, bs)[off + bs - 1] == 1
  {
    var q := off / bs;
    assert off == q * bs;
    DivUnique(|p|, bs, q);
    assert (q + 1) * bs == q * bs + bs;
    assert |Pad(p, bs)| - |p| == 1;
  }

  /** The padded plaintext block at off, the block holding the end of the prefix,
      when m copies of c follow the prefix: the prefix tail, copies of c, and a last
      byte that is c again when the copies reach past the block and NextByte(S)
      when they stop one short of its end. */
  lemma PadBlockWithData(P: Bytes, S: Bytes, bs: nat, off: nat, c: bv8, m: nat)
    requires 0 < bs < 256 && off % bs == 0 && off <= |P| < off + bs
    requires m >= off + bs - |P| - 1
    ensures off + bs <= |Pad(P + Repeat(m, c) + S, bs)|
    ensures Pad(P + Repeat(m, c) + S, bs)[off .. off + bs]
         == P[off..] + Repeat(off + bs - |P| - 1, c) + [if m > off + bs - |P| - 1 then c else NextByte(S)]
  {
    var p := P + Repeat(m, c) + S;
    var n := off + bs - |P| - 1;
    var last: bv8 := if m > n then c else NextByte(S);
    var want := P[off..] + Repeat(n, c) + [last];
    PadCovers(p, bs, off, |P|);
    var x := Pad(p, bs);
    if m == n && |S| == 0 {
      PadOneShort(p, bs, off);
    } else {
      assert off + bs - 1 < |p|;
      assert x[off + bs - 1] == p[off + bs - 1] == last;
    }
    forall j | 0 <= j < bs - 1
      ensures x[off + j] == want[j]
    {
      assert off + j < |p|;
      assert x[off + j] == p[off + j];
    }
    assert x[off .. off + bs] == want;
  }

  /** The ciphertext block at off of m copies of c, by PadBlockWithData. */
  lemma ProbeBlockEcb(o: Oracle, E: Bytes -> Bytes, bs: nat, P: Bytes, S: Bytes, off: nat, c: bv8, m: nat)
    requires IsEcbOracle(o, E, bs, P, S)
    requires off % bs == 0 && off <= |P| < off + bs && m >= off + bs - |P| - 1
    ensures |o(Repeat(m, c))| >= off + bs
    ensures o(Repeat(m, c))[off .. off + bs]
         == E(P[off..] + Repeat(off + bs - |P| - 1, c) + [if m > off + bs - |P| - 1 then c else NextByte(S)])
  {
    PadBlockWithData(P, S, bs, off, c, m);
    EcbSlice(o, E, bs, P, S, Repeat(m, c), off);
  }

  /** The scan of `do_with_constant(c)` passes every i below the prefix's offset r
      inside its last block, and stops at r unless c is the byte that follows. */
  lemma {:induction false} ProbeFromEcb(o: Oracle, E: Bytes -> Bytes, bs: nat, P: Bytes, S: Bytes,
                                        off: nat, c: bv8, initial: Bytes, i: nat)
    requires IsEcbOracle(o, E, bs, P, S)
    requires off % bs == 0 && off <= |P| < off + bs && i <= |P| - off
    requires |o(Repeat(bs, c))| >= off + bs && initial == o(Repeat(bs, c))[off .. off + bs]
    ensures ProbeFrom(o, bs, off, c, initial, i) >= |P| - off
    ensures c != NextByte(S) ==> ProbeFrom(o, bs, off, c, initial, i) == |P| - off
    decreases |P| - off - i
  {
    var n := off + bs - |P| - 1;
    var tail := P[off..] + Repeat(n, c);
    ProbeBlockEcb(o, E, bs, P, S, off, c, bs);
    ProbeBlockEcb(o, E, bs, P, S, off, c, bs - i - 1);
    if i < |P| - off {
      ProbeFromEcb(o, E, bs, P, S, off, c, initial, i + 1);
    } else if c != NextByte(S) {
      assert (tail + [c])[bs - 1] != (tail + [NextByte(S)])[bs - 1];
      Distinct(E, bs, tail + [c], tail + [NextByte(S)]);
    }
  }

  /** `do_with_constant(c)` answers at least r, and exactly r unless c is the byte
      that follows the prefix. */
  lemma ProbeOfEcb(o: Oracle, E: Bytes -> Bytes, bs: nat, P: Bytes, S: Bytes, off: nat, c: bv8)
    requires IsEcbOracle(o, E, bs, P, S)
    requires off % bs == 0 && off <= |P| < off + bs
    ensures ProbeOf(o, bs, off, c).Success?
    ensures ProbeOf(o, bs, off, c).value >= |P| - off
    ensures c != NextByte(S) ==> ProbeOf(o, bs, off, c).value == |P| - off
  {
    ProbeBlockEcb(o, E, bs, P, S, off, c, bs);
    ProbeFromEcb(o, E, bs, P, S, off, c, o(Repeat(bs, c))[off .. off + bs], 0);
  }

  /** `detect_prefix_len` finds the prefix length. */
  lemma PrefixLenOnEcb(o: Oracle, E: Bytes -> Bytes, bs: nat, P: Bytes, S: Bytes)
    requires IsEcbOracle(o, E, bs, P, S)
    ensures LengthChangesWithin(o, bs)
    ensures PrefixLenOf(o, bs) == Success(|P|)
  {
    BlocksizeOnEcb(o, E, bs, P, S);
    PrefixBlocksCountOnEcb(o, E, bs, P, S);
    var off := |P| / bs * bs;
    assert PrefixLenOf(o, bs) == PrefixLenAt(o, bs, off);
    BlockOf(|P|, bs);
    PrefixLenAtEcb(o, E, bs, P, S, off);
  }

  /** Probing the block that holds the first data byte with 0 and with 1 finds the
      prefix bytes in it: one of the two bytes differs from the first suffix byte. */
  lemma PrefixLenAtEcb(o: Oracle, E: Bytes -> Bytes, bs: nat, P: Bytes, S: Bytes, off: nat)
    requires IsEcbOracle(o, E, bs, P, S)
    requires off % bs == 0 && off <= |P| < off + bs
    ensures PrefixLenAt(o, bs, off) == Success(|P|)
  {
    ProbeOfEcb(o, E, bs, P, S, off, 0);
    ProbeOfEcb(o, E, bs, P, S, off, 1);
    var p0, p1 := ProbeOf(o, bs, off, 0).value, ProbeOf(o, bs, off, 1).value;
    assert Min(p0, p1) == |P| - off;
  }

  // ---------------------------------------------------------------------------
  // Mode detection

  /** A 16-byte block that lies inside the data d is the block function of d's bytes. */
  lemma DataBlock(o: Oracle, E: Bytes -> Bytes, P: Bytes, S: Bytes, d: Bytes, start: nat)
    requires IsEcbOracle(o, E, 16, P, S)
    requires start % 16 == 0 && |P| <= start && start + 16 <= |P| + |d|
    ensures start / 16 < |Chunks(o(d), 16)|
    ensures Chunks(o(d), 16)[start / 16] == E(d[start - |P| .. start - |P| + 16])
  {
    var p := P + d + S;
    PadCovers(p, 16, start, start);
    EcbSlice(o, E, 16, P, S, d, start);
    assert Pad(p, 16)[start .. start + 16] == d[start - |P| .. start - |P| + 16] by {
      var q := P + d;
      assert Pad(p, 16)[start .. start + 16] == Pad(p, 16)[..|p|][start .. start + 16];
      assert p[..|q|] == q && q[|P|..] == d;
      assert p[start .. start + 16] == q[start .. start + 16] == q[|P|..][start - |P| .. start - |P| + 16];
    }
  }

  /** `detect_encryption_mode` names ECB: 48 zero bytes fill two whole 16-byte blocks,
      which encipher alike. */
  lemma EncryptionModeOnEcb(o: Oracle, E: Bytes -> Bytes, P: Bytes, S: Bytes)
    requires IsEcbOracle(o, E, 16, P, S)
    ensures DetectEncryptionMode(o) == ECB
  {
    var k := (|P| + 15) / 16;
    var start := k * 16;
    NextWholeBlock(|P|);
    var zs := Zeros(48);
    DataBlock(o, E, P, S, zs, start);
    DataBlock(o, E, P, S, zs, start + 16);
    assert zs[start - |P| .. start - |P| + 16] == Zeros(16);
    assert zs[start + 16 - |P| .. start + 16 - |P| + 16] == Zeros(16);
    var cs := Chunks(o(zs), 16);
    assert 0 <= k < k + 1 < |cs| && cs[k] == cs[k + 1];
    assert HasDuplicate(cs);
  }

  /** The first 16-byte block boundary at or after x, and the one after it. */
  lemma NextWholeBlock(x: nat)
    ensures var k := (x + 15) / 16;
      && x <= k * 16 < x + 16
      && (k * 16) % 16 == 0 && (k * 16) / 16 == k
      && (k * 16 + 16) % 16 == 0 && (k * 16 + 16) / 16 == k + 1
  {
    var k := (x + 15) / 16;
    MulDivCancel(k, 16);
    MulDivCancel(k + 1, 16);
  }

  // ---------------------------------------------------------------------------
  // Byte-at-a-time recovery, with no prefix

  /** Every dictionary entry is the block function of its probe block. */
  lemma DictOnEcb(o: Oracle, E: Bytes -> Bytes, bs: nat, S: Bytes, known: Bytes)
    requires IsEcbOracle(o, E, bs, [], S)
    ensures DictOf(o, known, bs).Success?
    ensures forall i: int :: 0 <= i < 256 ==> DictOf(o, known, bs).value[i] == E(ProbeBlock(known, bs, i as bv8))
  {
    MulDivCancel(0, bs);
    forall i | 0 <= i < 256
      ensures |ProbeCipher(o, known, bs, i)| >= bs
      ensures ProbeCipher(o, known, bs, i)[..bs] == E(ProbeBlock(known, bs, i as bv8))
    {
      var b := ProbeBlock(known, bs, i as bv8);
      PadCovers([] + b + S, bs, 0, 0);
      EcbSlice(o, E, bs, [], S, b, 0);
      assert Pad([] + b + S, bs)[0 .. bs] == b by {
        forall j | 0 <= j < bs
          ensures Pad([] + b + S, bs)[j] == b[j]
        {
          assert ([] + b + S)[j] == b[j];
        }
      }
    }
  }

  /** Byte j of the probe block for the known bytes: filler, then known bytes, then c. */
  lemma ProbeBlockAt(known: Bytes, bs: nat, c: bv8, j: nat)
    requires bs > 0 && j < bs
    ensures ProbeBlock(known, bs, c)[j]
         == if j == bs - 1 then c
            else if |known| + 1 + j < bs then FILLER
            else known[|known| + 1 + j - bs]
  {
  }

  /** The target block of round n, with the first n suffix bytes known, is the block
      function of the probe block for the next suffix byte. */
  lemma TargetOnEcb(o: Oracle, E: Bytes -> Bytes, bs: nat, S: Bytes, known: Bytes)
    requires IsEcbOracle(o, E, bs, [], S)
    requires |known| < |S| && known == S[..|known|]
    ensures TargetOf(o, bs, |known|) == Success(E(ProbeBlock(known, bs, S[|known|])))
  {
    var n := |known|;
    var m := bs - n % bs - 1;
    var start := n / bs * bs;
    var d := Repeat(m, FILLER);
    assert n == start + n % bs;
    MulDivCancel(n / bs, bs);
    TargetWindow(known, bs, S, m, start);
    var p := [] + d + S;
    assert p == d + S;
    assert Pad(p, bs)[start .. start + bs] == p[start .. start + bs];
    EcbSlice(o, E, bs, [], S, d, start);
  }

  /** The filler bytes and the suffix, at the block of suffix byte n, are the probe
      block for that byte. */
  lemma TargetWindow(known: Bytes, bs: nat, S: Bytes, m: nat, start: nat)
    requires bs > 0 && |known| < |S| && known == S[..|known|]
    requires m < bs && start + bs == |known| + m + 1
    ensures start + bs <= |Repeat(m, FILLER) + S|
    ensures (Repeat(m, FILLER) + S)[start .. start + bs] == ProbeBlock(known, bs, S[|known|])
  {
    var p := Repeat(m, FILLER) + S;
    var n := |known|;
    forall j | 0 <= j < bs
      ensures p[start + j] == ProbeBlock(known, bs, S[n])[j]
    {
      ProbeBlockAt(known, bs, S[n], j);
      if start + j < m {
        assert p[start + j] == FILLER;
      } else {
        assert p[start + j] == S[start + j - m];
      }
    }
  }

  /** Round n recovers suffix byte n. */
  lemma StepOnEcb(o: Oracle, E: Bytes -> Bytes, bs: nat, S: Bytes, known: Bytes)
    requires IsEcbOracle(o, E, bs, [], S)
    requires |known| < |S| && known == S[..|known|]
    ensures StepOf(o, bs, known) == Success(S[|known|])
  {
    var c := S[|known|];
    DictOnEcb(o, E, bs, S, known);
    TargetOnEcb(o, E, bs, S, known);
    var dict := DictOf(o, known, bs).value;
    var target := E(ProbeBlock(known, bs, c));
    ByteBack(c);
    assert Matches(dict[c as int], target);
    var v := FindOf(dict, target).value;
    var i := LeastMatch(dict, target, 0).value;
    assert v == i as bv8;
    Injective(E, bs, ProbeBlock(known, bs, v), ProbeBlock(known, bs, c));
  }

  lemma {:induction false} RecoverFromOnEcb(o: Oracle, E: Bytes -> Bytes, bs: nat, S: Bytes, known: Bytes)
    requires IsEcbOracle(o, E, bs, [], S)
    requires |known| <= |S| && known == S[..|known|]
    ensures RecoverFrom(o, bs, |S|, known) == Success(S)
    decreases |S| - |known|
  {
    if |known| < |S| {
      var next := known + [S[|known|]];
      StepOnEcb(o, E, bs, S, known);
      RecoverFromStep(o, bs, |S|, known);
      assert next == S[..|next|];
      RecoverFromOnEcb(o, E, bs, S, next);
    } else {
      assert known == S;
    }
  }

  /** `recover_ecb_suffix` recovers the whole secret suffix of an ECB oracle without
      a prefix. */
  lemma RecoverOnEcb(o: Oracle, E: Bytes -> Bytes, bs: nat, S: Bytes)
    requires IsEcbOracle(o, E, bs, [], S)
    ensures LengthChangesWithin(o, bs)
    ensures RecoverOf(o, bs) == Success(S)
  {
    BlocksizeOnEcb(o, E, bs, [], S);
    SuffixLenOnEcb(o, E, bs, [], S);
    RecoverFromOnEcb(o, E, bs, S, []);
  }
}
