/** The byte utilities of the frequency-analysis component (src/lib.rs). */
module XorTools {
  import opened Common
  import opened Arith

  /** Byte-wise XOR of left with the first |left| bytes of right. */
  function Xor(left: Bytes, right: Bytes): (r: Bytes)
    requires |right| >= |left|
    ensures |r| == |left|
  {
    seq(|left|, i requires 0 <= i < |left| => left[i] ^ right[i])
  }

  /** The length check of `do_xor` as written: it compares `right.len()` with itself. */
  predicate XorGuardFires(left: Bytes, right: Bytes) {
    |right| != |right|
  }

  /** `do_xor`. The vacuous guard is kept; the indexing `right[i]` needs right to be
      at least as long as left. */
  method DoXor(left: Bytes, right: Bytes) returns (out: Result<Bytes>)
    requires |right| >= |left|
    ensures out.Success?
    ensures |out.value| == |left|
    ensures forall i :: 0 <= i < |left| ==> out.value[i] == left[i] ^ right[i]
  {
    if XorGuardFires(left, right) {
      return Failure(LengthMismatch);
    }
    var bytes: Bytes := [];
    for i := 0 to |left|
      invariant |bytes| == i
      invariant forall j :: 0 <= j < i ==> bytes[j] == left[j] ^ right[j]
    {
      bytes := bytes + [left[i] ^ right[i]];
    }
    assert bytes == Xor(left, right);
    return Success(bytes);
  }

  /** The guard lets every pair of lengths through, so inputs of different
      lengths are XORed without complaint (left = [1], right = [1, 2] gives [0]). */
  lemma XorGuardNeverFires(left: Bytes, right: Bytes)
    ensures !XorGuardFires(left, right)
  {
  }

  lemma XorAcceptsMismatch()
    ensures !XorGuardFires([1], [1, 2]) && Xor([1], [1, 2]) == [0]
  {
    assert Xor([1], [1, 2])[0] == 1 ^ 1;
  }

  /** The evidently intended `do_xor`: a length mismatch is an error. */
  function XorChecked(left: Bytes, right: Bytes): (r: Result<Bytes>)
    ensures r.Success? <==> |left| == |right|
    ensures r.Failure? ==> r.error == LengthMismatch
    ensures r.Success? ==> (|r.value| == |left| &&
              forall i :: 0 <= i < |left| ==> r.value[i] == left[i] ^ right[i])
  {
    if |left| != |right| then Failure(LengthMismatch) else Success(Xor(left, right))
  }

  /** XOR with the same right operand undoes itself. */
  lemma XorCheckedInvolution(left: Bytes, right: Bytes)
    requires |left| == |right|
    ensures XorChecked(XorChecked(left, right).value, right) == Success(left)
  {
    var once := XorChecked(left, right).value;
    var twice := XorChecked(once, right).value;
    forall i | 0 <= i < |left| ensures twice[i] == left[i] {
      assert twice[i] == (left[i] ^ right[i]) ^ right[i];
    }
    assert twice == left;
  }

  /** `do_single_xor`: every byte XORed with k. */
  function SingleXor(input: Bytes, k: bv8): (r: Bytes)
    ensures |r| == |input|
    ensures forall i :: 0 <= i < |input| ==> r[i] == input[i] ^ k
  {
    seq(|input|, i requires 0 <= i < |input| => input[i] ^ k)
  }

  lemma SingleXorInvolution(input: Bytes, k: bv8)
    ensures SingleXor(SingleXor(input, k), k) == input
  {
    var twice := SingleXor(SingleXor(input, k), k);
    forall i | 0 <= i < |input| ensures twice[i] == input[i] {
      assert twice[i] == (input[i] ^ k) ^ k;
    }
  }

  /** The repeating-key XOR that `do_vigenere` computes. */
  function Vigenere(input: Bytes, key: Bytes): (r: Bytes)
    requires |input| > 0 ==> |key| > 0
    ensures |r| == |input|
  {
    seq(|input|, i requires 0 <= i < |input| => input[i] ^ key[i % |key|])
  }

  /** `do_vigenere`. `i % key.len()` divides by zero for an empty key and a non-empty input. */
  method DoVigenere(input: Bytes, key: Bytes) returns (out: Bytes)
    requires |input| > 0 ==> |key| > 0
    ensures out == Vigenere(input, key)
    ensures |out| == |input|
    ensures forall i :: 0 <= i < |input| ==> out[i] == input[i] ^ key[i % |key|]
  {
    out := [];
    for i := 0 to |input|
      invariant out == Vigenere(input, key)[..i]
    {
      out := out + [input[i] ^ key[i % |key|]];
    }
  }

  /** With a one-byte key the repeating-key XOR is the single-byte XOR. */
  lemma VigenereOneByteKey(input: Bytes, k: bv8)
    ensures Vigenere(input, [k]) == SingleXor(input, k)
  {
    forall i | 0 <= i < |input| ensures Vigenere(input, [k])[i] == SingleXor(input, k)[i] {
      assert i % 1 == 0;
    }
  }

  /** Number of set bits among the low `width` bits of b (`count_ones` for width 8). */
  function CountOnes(b: bv8, width: nat): (n: nat)
    requires width <= 8
    ensures n <= width
    ensures b == 0 ==> n == 0
  {
    if width == 0 then 0
    else CountOnes(b, width - 1) + (if (b >> (width - 1)) & 1 == 1 then 1 else 0)
  }

  /** The sum of `(left[i] ^ right[i]).count_ones()` over equal-length inputs. */
  function BitDiff(left: Bytes, right: Bytes): (n: nat)
    requires |left| == |right|
    ensures n <= 8 * |left|
    decreases |left|
  {
    if |left| == 0 then 0
    else BitDiff(left[..|left| - 1], right[..|right| - 1])
         + CountOnes(left[|left| - 1] ^ right[|right| - 1], 8)
  }

  /** `hamming_distance`; its panic on unequal lengths is the LengthMismatch error. */
  function HammingDistance(left: Bytes, right: Bytes): (r: Result<nat>)
    ensures r.Failure? <==> |left| != |right|
    ensures r.Failure? ==> r.error == LengthMismatch
    ensures r.Success? ==> r.value <= 8 * |left|
  {
    if |left| != |right| then Failure(LengthMismatch) else Success(BitDiff(left, right))
  }

  lemma {:induction false} BitDiffSelf(s: Bytes)
    ensures BitDiff(s, s) == 0
    decreases |s|
  {
    if |s| > 0 {
      BitDiffSelf(s[..|s| - 1]);
      assert s[|s| - 1] ^ s[|s| - 1] == 0;
    }
  }

  lemma HammingSelf(s: Bytes)
    ensures HammingDistance(s, s) == Success(0)
  {
    BitDiffSelf(s);
  }

  lemma {:induction false} BitDiffSymmetric(left: Bytes, right: Bytes)
    requires |left| == |right|
    ensures BitDiff(left, right) == BitDiff(right, left)
    decreases |left|
  {
    if |left| > 0 {
      BitDiffSymmetric(left[..|left| - 1], right[..|right| - 1]);
      assert left[|left| - 1] ^ right[|right| - 1] == right[|right| - 1] ^ left[|left| - 1];
    }
  }

  lemma HammingSymmetric(left: Bytes, right: Bytes)
    ensures HammingDistance(left, right) == HammingDistance(right, left)
  {
    if |left| == |right| {
      BitDiffSymmetric(left, right);
    }
  }

  /** Sub-stream i of the transposition: the bytes at positions j with j % ks == i, in order. */
  function Column(s: Bytes, ks: nat, i: nat): (c: Bytes)
    requires ks > 0
    ensures |c| <= |s|
    ensures i >= ks ==> c == []
    decreases |s|
  {
    if |s| == 0 then []
    else Column(s[..|s| - 1], ks, i) + (if (|s| - 1) % ks == i then [s[|s| - 1]] else [])
  }

  /** Element t of sub-stream i is input byte t * ks + i, and the sub-stream holds
      exactly the positions below |s|. */
  lemma {:induction false} ColumnAt(s: Bytes, ks: nat, i: nat)
    requires 0 <= i < ks
    ensures forall t: nat :: t < |Column(s, ks, i)| <==> t * ks + i < |s|
    ensures forall t: nat :: t < |Column(s, ks, i)| ==> Column(s, ks, i)[t] == s[t * ks + i]
    decreases |s|
  {
    if |s| > 0 {
      var n := |s| - 1;
      ColumnAt(s[..n], ks, i);
      var c := Column(s[..n], ks, i);
      if n % ks == i {
        ColumnHit(|c|, n, ks, i);
      } else {
        ColumnMiss(|c|, n, ks, i);
      }
    }
  }

  /** Position n, which lies in sub-stream i, is its element number |c| when the
      first |c| elements of the sub-stream come from positions below n. */
  lemma ColumnHit(len: nat, n: nat, ks: nat, i: nat)
    requires 0 <= i < ks && n % ks == i
    requires forall t: nat :: t < len <==> t * ks + i < n
    ensures len * ks + i == n
    ensures forall t: nat :: t < len + 1 <==> t * ks + i < n + 1
  {
    var t0 := n / ks;
    assert t0 * ks + i == n;
    assert len == t0 by {
      assert !(t0 < len);
      assert len * ks + i >= n;
      if len < t0 {
        MulMono(len + 1, t0, ks);
      }
    }
    forall t: nat ensures t < len + 1 <==> t * ks + i < n + 1 {
      if t <= t0 { MulMono(t, t0, ks); } else { MulMono(t0 + 1, t, ks); }
    }
  }

  /** A position outside sub-stream i does not extend it. */
  lemma ColumnMiss(len: nat, n: nat, ks: nat, i: nat)
    requires 0 <= i < ks && n % ks != i
    requires forall t: nat :: t < len <==> t * ks + i < n
    ensures forall t: nat :: t < len <==> t * ks + i < n + 1
  {
    forall t: nat ensures t < len <==> t * ks + i < n + 1 {
      assert t * ks + i != n by {
        if t * ks + i == n { DivUnique(n, ks, t); }
      }
    }
  }

  /** The transposition and key assembly of `crack_vigenere`. The key size (from the
      floating-point `guess_key_size`) and the single-byte solver (the floating-point
      `crack_single_xor`, first component of its result) are parameters. */
  method CrackVigenere(input: Bytes, keySize: nat, solve: Bytes -> bv8) returns (key: Bytes)
    requires keySize > 0
    ensures |key| == keySize
    ensures forall i :: 0 <= i < keySize ==> key[i] == solve(Column(input, keySize, i))
  {
    var vectors: seq<Bytes> := seq(keySize, _ => []);
    var pos := 0;
    while pos < |input|
      invariant pos <= |input|
      invariant pos < |input| ==> pos % keySize == 0
      invariant |vectors| == keySize
      invariant forall k :: 0 <= k < keySize ==> vectors[k] == Column(input[..pos], keySize, k)
    {
      var chunk := input[pos .. Min(pos + keySize, |input|)];
      for i := 0 to |chunk|
        invariant |vectors| == keySize
        invariant forall k :: 0 <= k < keySize ==> vectors[k] == Column(input[..pos + i], keySize, k)
      {
        OffsetInBlock(pos, i, keySize);
        ColumnStep(input, keySize, pos + i);
        vectors := vectors[i := vectors[i] + [chunk[i]]];
      }
      OffsetInBlock(pos, 0, keySize);
      pos := pos + |chunk|;
    }
    assert input[..pos] == input;
    key := [];
    for i := 0 to keySize
      invariant |key| == i
      invariant forall k :: 0 <= k < i ==> key[k] == solve(vectors[k])
    {
      key := key + [solve(vectors[i])];
    }
  }

  /** Appending byte j to the input extends exactly sub-stream j % ks. */
  lemma ColumnStep(s: Bytes, ks: nat, j: nat)
    requires ks > 0 && j < |s|
    ensures forall k :: 0 <= k < ks ==>
      Column(s[..j + 1], ks, k) == Column(s[..j], ks, k) + (if j % ks == k then [s[j]] else [])
  {
    assert s[..j + 1][..j] == s[..j];
  }
}
