/** The chosen-plaintext attack engine of src/lib.rs, against any deterministic oracle.

    Every probing method is proved equal to a specification function of the oracle
    (the functions ending in `Of`); what those functions compute against the padded
    ECB model is proved in module AttackOnEcb.

    The source's unbounded probing loops terminate only for an oracle whose output
    length changes at some number of zero bytes. The methods take that number as a
    ghost `bound`, which only the proof uses; against the padded ECB model it is the
    block size. */
module Attack {
  import opened Common
  import opened Arith
  import opened EcbModel

  // ---------------------------------------------------------------------------
  // Length probes: detect_blocksize, detect_suffix_len

  /** Length of the ciphertext of n zero bytes. */
  function OutLen(o: Oracle, n: nat): nat { |o(Zeros(n))| }

  predicate ChangesAt(o: Oracle, n: nat) { OutLen(o, n) != OutLen(o, 0) }

  /** The output length has changed once `bound` zero bytes are sent. */
  predicate LengthChangesWithin(o: Oracle, bound: nat) { ChangesAt(o, bound) }

  /** The least m >= k at which the length has changed, looking no further than bound. */
  function FirstChangeFrom(o: Oracle, k: nat, bound: nat): (m: nat)
    requires 1 <= k
    ensures k <= m
    ensures m <= bound || m == k
    ensures forall j :: k <= j < m ==> !ChangesAt(o, j)
    ensures ChangesAt(o, m) || m >= bound
    decreases bound - k
  {
    if k >= bound || ChangesAt(o, k) then k else FirstChangeFrom(o, k + 1, bound)
  }

  function FirstChange(o: Oracle, bound: nat): nat { FirstChangeFrom(o, 1, bound) }

  /** A change point with no change before it is the one FirstChange finds. */
  lemma FirstChangeIsLeast(o: Oracle, bound: nat, m: nat)
    requires 1 <= m <= bound && ChangesAt(o, m)
    requires forall j :: 1 <= j < m ==> !ChangesAt(o, j)
    ensures FirstChange(o, bound) == m
  {
  }

  /** What `detect_blocksize` returns: the growth of the ciphertext length at the
      first change; the unsigned subtraction fails if the length shrank. */
  function BlocksizeOf(o: Oracle, bound: nat): (r: Result<nat>)
    ensures LengthChangesWithin(o, bound) && r.Success? ==> r.value > 0
  {
    var m := FirstChange(o, bound);
    if OutLen(o, m) < OutLen(o, 0) then Failure(Underflow)
    else Success(OutLen(o, m) - OutLen(o, 0))
  }

  /** What `detect_suffix_len` returns: the initial length minus the number of zero
      bytes that changed it. */
  function SuffixLenOf(o: Oracle, bound: nat): (r: Result<nat>)
    ensures r.Success? <==> FirstChange(o, bound) <= OutLen(o, 0)
    ensures r.Failure? ==> r.error == Underflow
    ensures r.Success? ==> r.value < OutLen(o, 0) && r.value + FirstChange(o, bound) == OutLen(o, 0)
  {
    var m := FirstChange(o, bound);
    if m > OutLen(o, 0) then Failure(Underflow) else Success(OutLen(o, 0) - m)
  }

  method DetectBlocksize(oracle: Oracle, ghost bound: nat) returns (r: Result<nat>)
    requires LengthChangesWithin(oracle, bound)
    ensures r == BlocksizeOf(oracle, bound)
    ensures r.Success? ==> r.value > 0
  {
    var payload: Bytes := [];
    var zeroLen := |oracle(payload)|;
    assert payload == Zeros(0);
    while true
      invariant |payload| < bound
      invariant payload == Zeros(|payload|)
      invariant zeroLen == OutLen(oracle, 0)
      invariant forall j :: 1 <= j <= |payload| ==> !ChangesAt(oracle, j)
      decreases bound - |payload|
    {
      payload := payload + [0];
      assert payload == Zeros(|payload|);
      var len := |oracle(payload)|;
      if len != zeroLen {
        FirstChangeIsLeast(oracle, bound, |payload|);
        if len < zeroLen {
          return Failure(Underflow);
        }
        return Success(len - zeroLen);
      }
    }
  }

  method DetectSuffixLen(oracle: Oracle, ghost bound: nat) returns (r: Result<nat>)
    requires LengthChangesWithin(oracle, bound)
    ensures r == SuffixLenOf(oracle, bound)
  {
    var initialSize := |oracle([])|;
    assert [] == Zeros(0);
    var currentSize := initialSize;
    var payload: Bytes := [];
    while currentSize == initialSize
      invariant |payload| <= bound
      invariant payload == Zeros(|payload|)
      invariant initialSize == OutLen(oracle, 0)
      invariant currentSize == OutLen(oracle, |payload|)
      invariant forall j :: 1 <= j < |payload| ==> !ChangesAt(oracle, j)
      invariant currentSize == initialSize ==> |payload| < bound
      decreases bound - |payload|
    {
      payload := payload + [0];
      assert payload == Zeros(|payload|);
      currentSize := |oracle(payload)|;
    }
    FirstChangeIsLeast(oracle, bound, |payload|);
    if |payload| > initialSize {
      return Failure(Underflow);
    }
    return Success(initialSize - |payload|);
  }

  // ---------------------------------------------------------------------------
  // detect_padding and detect_prefix_plus_suffix_len, as written

  /** What `detect_padding` returns: `encrypt([]).len() - encrypt([0]).len()`, an
      unsigned subtraction that fails when the one-byte ciphertext is longer, taken
      modulo the detected block size. */
  function PaddingOf(o: Oracle, bound: nat): (r: Result<bool>)
    requires LengthChangesWithin(o, bound)
    ensures OutLen(o, 1) > OutLen(o, 0) ==> r == Failure(Underflow)
    ensures r.Failure? ==> r.error == Underflow
    ensures OutLen(o, 1) == OutLen(o, 0) && BlocksizeOf(o, bound).Success? ==> r == Success(true)
  {
    if OutLen(o, 1) > OutLen(o, 0) then Failure(Underflow)
    else
      var bs :- BlocksizeOf(o, bound);
      Success((OutLen(o, 0) - OutLen(o, 1)) % bs == 0)
  }

  method DetectPadding(oracle: Oracle, ghost bound: nat) returns (r: Result<bool>)
    requires LengthChangesWithin(oracle, bound)
    ensures r == PaddingOf(oracle, bound)
  {
    var empty := |oracle([])|;
    var one := |oracle([0])|;
    assert [] == Zeros(0) && [0] == Zeros(1);
    if one > empty {
      return Failure(Underflow);
    }
    var bs :- DetectBlocksize(oracle, bound);
    return Success((empty - one) % bs == 0);
  }

  /** What `detect_prefix_plus_suffix_len` returns: the initial length when no padding
      is detected; otherwise `initial - index + 1` for the least index in 1..=bs at
      which the length changes. */
  function PrefixPlusSuffixOf(o: Oracle, bound: nat): (r: Result<nat>)
    requires LengthChangesWithin(o, bound)
    ensures PaddingOf(o, bound) == Success(false) ==> r == Success(OutLen(o, 0))
    ensures PaddingOf(o, bound).Failure? ==> r == Failure(Underflow)
    ensures r.Failure? ==> r.error == Underflow || r.error == NoLengthChange
    ensures r.Success? ==> r.value <= OutLen(o, 0)
  {
    var initial := OutLen(o, 0);
    var padded :- PaddingOf(o, bound);
    if !padded then Success(initial)
    else
      var bs :- BlocksizeOf(o, bound);
      var index := FirstChange(o, bs);
      if !ChangesAt(o, index) then Failure(NoLengthChange)
      else if index > initial then Failure(Underflow)
      else Success(initial - index + 1)
  }

  method DetectPrefixPlusSuffixLen(oracle: Oracle, ghost bound: nat) returns (r: Result<nat>)
    requires LengthChangesWithin(oracle, bound)
    ensures r == PrefixPlusSuffixOf(oracle, bound)
  {
    var initialSize := |oracle([])|;
    assert [] == Zeros(0);
    var padded :- DetectPadding(oracle, bound);
    if !padded {
      return Success(initialSize);
    }
    var bs :- DetectBlocksize(oracle, bound);
    var input := Zeros(bs);
    var index: Option<nat> := None;
    var i := 1;
    while i <= bs
      invariant 1 <= i <= bs + 1
      invariant forall j :: 1 <= j < i ==> !ChangesAt(oracle, j)
      invariant index.None?
    {
      assert input[..i] == Zeros(i);
      if initialSize != |oracle(input[..i])| {
        index := Some(i);
        break;
      }
      i := i + 1;
    }
    match index {
      case None =>
        assert !ChangesAt(oracle, FirstChange(oracle, bs));
        return Failure(NoLengthChange);
      case Some(k) =>
        FirstChangeIsLeast(oracle, bs, k);
        if k > initialSize {
          return Failure(Underflow);
        }
        return Success(initialSize - k + 1);
    }
  }

  /** The evidently intended `detect_padding` against block size bs: the ciphertexts
      of [] and [0] differ in length by whole blocks, whichever of the two is longer. */
  function PaddingCorrected(o: Oracle, bs: nat): (r: bool)
    requires bs > 0
    ensures r <==> (OutLen(o, 1) - OutLen(o, 0)) % bs == 0
    ensures r <==> (OutLen(o, 0) - OutLen(o, 1)) % bs == 0
  {
    var diff := if OutLen(o, 1) >= OutLen(o, 0) then OutLen(o, 1) - OutLen(o, 0) else OutLen(o, 0) - OutLen(o, 1);
    NegatedMultiple(OutLen(o, 1) - OutLen(o, 0), bs);
    diff % bs == 0
  }

  /** The evidently intended `detect_prefix_plus_suffix_len`: the initial length
      minus the number of bytes that first changed it. */
  function PrefixPlusSuffixCorrectedOf(o: Oracle, bound: nat): (r: Result<nat>)
    requires LengthChangesWithin(o, bound)
    ensures r.Failure? ==> r.error == Underflow || r.error == NoLengthChange
    ensures r.Success? ==> r.value <= OutLen(o, 0)
    ensures BlocksizeOf(o, bound).Success? && PaddingCorrected(o, BlocksizeOf(o, bound).value)
            && ChangesAt(o, FirstChange(o, BlocksizeOf(o, bound).value))
            ==> r == SuffixLenOf(o, BlocksizeOf(o, bound).value)
  {
    var initial := OutLen(o, 0);
    var bs :- BlocksizeOf(o, bound);
    if !PaddingCorrected(o, bs) then Success(initial)
    else
      var index := FirstChange(o, bs);
      if !ChangesAt(o, index) then Failure(NoLengthChange)
      else if index > initial then Failure(Underflow)
      else Success(initial - index)
  }

  // ---------------------------------------------------------------------------
  // Prefix detection: detect_prefix_blocks_count, detect_prefix_len

  /** `zip(..).position(|(x, y)| x != y)`: the first index where two chunk lists differ. */
  function FirstDiff(xs: seq<Bytes>, ys: seq<Bytes>): (r: Option<nat>)
    ensures r.Some? ==> r.value < |xs| && r.value < |ys| && xs[r.value] != ys[r.value]
    ensures r.Some? ==> forall j :: 0 <= j < r.value ==> xs[j] == ys[j]
    ensures r.None? ==> forall j :: 0 <= j < |xs| && j < |ys| ==> xs[j] == ys[j]
  {
    if |xs| == 0 || |ys| == 0 then None
    else if xs[0] != ys[0] then Some(0)
    else match FirstDiff(xs[1..], ys[1..])
      case None => None
      case Some(i) => Some(i + 1)
  }

  /** An index where the lists differ, with agreement before it, is what FirstDiff finds. */
  lemma {:induction false} FirstDiffAt(xs: seq<Bytes>, ys: seq<Bytes>, k: nat)
    requires k < |xs| && k < |ys| && xs[k] != ys[k]
    requires forall j :: 0 <= j < k ==> xs[j] == ys[j]
    ensures FirstDiff(xs, ys) == Some(k)
    decreases k
  {
    if k > 0 {
      FirstDiffAt(xs[1..], ys[1..], k - 1);
    }
  }

  /** What `detect_prefix_blocks_count` returns: the first block index at which the
      ciphertexts of [0] and [1] differ. */
  function PrefixBlocksCountOf(o: Oracle, bound: nat): (r: Result<nat>)
    requires LengthChangesWithin(o, bound)
    ensures r.Failure? ==> r.error == Underflow || r.error == PrefixNotFound
    ensures r.Success? ==> BlocksizeOf(o, bound).Success?
    ensures r.Success? ==>
      var cs0 := Chunks(o([0]), BlocksizeOf(o, bound).value);
      var cs1 := Chunks(o([1]), BlocksizeOf(o, bound).value);
      && r.value < |cs0| && r.value < |cs1| && cs0[r.value] != cs1[r.value]
      && forall j :: 0 <= j < r.value ==> cs0[j] == cs1[j]
  {
    var bs :- BlocksizeOf(o, bound);
    match FirstDiff(Chunks(o([0]), bs), Chunks(o([1]), bs))
    case None => Failure(PrefixNotFound)
    case Some(i) => Success(i)
  }

  method DetectPrefixBlocksCount(oracle: Oracle, ghost bound: nat) returns (r: Result<nat>)
    requires LengthChangesWithin(oracle, bound)
    ensures r == PrefixBlocksCountOf(oracle, bound)
  {
    var blockSize :- DetectBlocksize(oracle, bound);
    var position := FirstDiff(Chunks(oracle([0]), blockSize), Chunks(oracle([1]), blockSize));
    match position {
      case None => return Failure(PrefixNotFound);
      case Some(i) => return Success(i);
    }
  }

  /** The scan of `do_with_constant` from i on: the least i < bs at which the block at
      offset of the ciphertext of bs - i - 1 copies of c is missing or differs from
      `initial`, and bs if there is none. */
  function ProbeFrom(o: Oracle, bs: nat, offset: nat, c: bv8, initial: Bytes, i: nat): (r: nat)
    requires i <= bs
    ensures i <= r <= bs
    decreases bs - i
  {
    if i == bs then bs
    else
      var current := o(Repeat(bs - i - 1, c));
      if |current| < offset + bs || initial != current[offset .. offset + bs] then i
      else ProbeFrom(o, bs, offset, c, initial, i + 1)
  }

  /** What `do_with_constant(c)` inside `detect_prefix_len` returns. */
  function ProbeOf(o: Oracle, bs: nat, offset: nat, c: bv8): (r: Result<nat>)
    ensures r.Success? ==> r.value <= bs
  {
    var full := o(Repeat(bs, c));
    if |full| < offset + bs then Failure(OutOfRange)
    else Success(ProbeFrom(o, bs, offset, c, full[offset .. offset + bs], 0))
  }

  method ProbeConstant(oracle: Oracle, bs: nat, offset: nat, c: bv8) returns (r: Result<nat>)
    ensures r == ProbeOf(oracle, bs, offset, c)
  {
    var cblock := Repeat(bs, c);
    var full := oracle(cblock);
    if |full| < offset + bs {
      return Failure(OutOfRange);
    }
    var initialBlock := full[offset .. offset + bs];
    for i := 0 to bs
      invariant ProbeFrom(oracle, bs, offset, c, initialBlock, 0)
             == ProbeFrom(oracle, bs, offset, c, initialBlock, i)
    {
      assert cblock[i + 1..] == Repeat(bs - i - 1, c);
      var current := oracle(cblock[i + 1..]);
      if |current| < offset + bs || initialBlock != current[offset .. offset + bs] {
        return Success(i);
      }
    }
    return Success(bs);
  }

  /** What `detect_prefix_len` returns: the prefix block count times the block size,
      plus the smaller of the probes with the bytes 0 and 1. */
  function PrefixLenOf(o: Oracle, bound: nat): (r: Result<nat>)
    requires LengthChangesWithin(o, bound)
    ensures r.Success? ==> BlocksizeOf(o, bound).Success? && PrefixBlocksCountOf(o, bound).Success?
    ensures r.Success? ==>
      var offset := PrefixBlocksCountOf(o, bound).value * BlocksizeOf(o, bound).value;
      offset <= r.value <= offset + BlocksizeOf(o, bound).value
  {
    var bs :- BlocksizeOf(o, bound);
    var count :- PrefixBlocksCountOf(o, bound);
    PrefixLenAt(o, bs, count * bs)
  }

  /** The probes of `detect_prefix_len` at the first block that differs, at offset. */
  function PrefixLenAt(o: Oracle, bs: nat, offset: nat): (r: Result<nat>)
    ensures r.Success? ==> offset <= r.value <= offset + bs
  {
    var p0 :- ProbeOf(o, bs, offset, 0);
    var p1 :- ProbeOf(o, bs, offset, 1);
    Success(offset + Min(p0, p1))
  }

  method DetectPrefixLen(oracle: Oracle, ghost bound: nat) returns (r: Result<nat>)
    requires LengthChangesWithin(oracle, bound)
    ensures r == PrefixLenOf(oracle, bound)
  {
    var blockSize :- DetectBlocksize(oracle, bound);
    var count :- DetectPrefixBlocksCount(oracle, bound);
    var offset := count * blockSize;
    assert PrefixLenOf(oracle, bound) == PrefixLenAt(oracle, blockSize, offset);
    r := ProbeBoth(oracle, blockSize, offset);
  }

  /** The two probes of `detect_prefix_len`, with the bytes 0 and 1. */
  method ProbeBoth(oracle: Oracle, bs: nat, offset: nat) returns (r: Result<nat>)
    ensures r == PrefixLenAt(oracle, bs, offset)
  {
    var p0 :- ProbeConstant(oracle, bs, offset, 0);
    var p1 :- ProbeConstant(oracle, bs, offset, 1);
    return Success(offset + Min(p0, p1));
  }

  // ---------------------------------------------------------------------------
  // Mode detection: detect_ecb, detect_encryption_mode

  /** Two chunks of the list are equal. */
  predicate HasDuplicate(cs: seq<Bytes>) {
    exists i, j :: 0 <= i < j < |cs| && cs[i] == cs[j]
  }

  lemma {:induction false} DistinctCount(cs: seq<Bytes>)
    ensures |set x | x in cs| <= |cs|
    ensures |set x | x in cs| < |cs| <==> HasDuplicate(cs)
    decreases |cs|
  {
    if |cs| > 0 {
      var init := cs[..|cs| - 1];
      var last := cs[|cs| - 1];
      DistinctCount(init);
      assert cs == init + [last];
      assert (set x | x in cs) == (set x | x in init) + {last};
      if last in init {
        var i :| 0 <= i < |init| && init[i] == last;
        assert cs[i] == cs[|cs| - 1];
      } else {
        DuplicateBeforeNew(cs);
      }
    }
  }

  /** When the last chunk is new, the list repeats a chunk exactly when the chunks
      before it do. */
  lemma DuplicateBeforeNew(cs: seq<Bytes>)
    requires |cs| > 0 && cs[|cs| - 1] !in cs[..|cs| - 1]
    ensures HasDuplicate(cs) <==> HasDuplicate(cs[..|cs| - 1])
  {
    var init := cs[..|cs| - 1];
    if HasDuplicate(cs) {
      var i, j :| 0 <= i < j < |cs| && cs[i] == cs[j];
      assert init[i] == cs[i];
      assert j < |cs| - 1;
      assert init[i] == init[j];
    }
    if HasDuplicate(init) {
      var i, j :| 0 <= i < j < |init| && init[i] == init[j];
      assert cs[i] == cs[j];
    }
  }

  /** `detect_ecb`: sorting and deduplicating the 16-byte chunks leaves their distinct
      values, so the list shrinks exactly when two chunks are equal. */
  function DetectEcb(input: Bytes): (r: bool)
    ensures r <==> HasDuplicate(Chunks(input, 16))
  {
    var chunks := Chunks(input, 16);
    DistinctCount(chunks);
    |set x | x in chunks| != |chunks|
  }

  /** `detect_encryption_mode`: 48 zero bytes, ECB when the ciphertext repeats a block. */
  function DetectEncryptionMode(o: Oracle): (m: Mode)
    ensures m == ECB <==> HasDuplicate(Chunks(o(Zeros(48)), 16))
  {
    if DetectEcb(o(Zeros(48))) then ECB else CBC
  }

  // ---------------------------------------------------------------------------
  // Byte-at-a-time recovery: build_dict, find_char_in_dict, recover_ecb_suffix

  /** The dictionary probe for candidate c: the last bs bytes of bs filler bytes,
      the known bytes and one more filler byte, with the last byte set to c. */
  function ProbeBlock(known: Bytes, bs: nat, c: bv8): (b: Bytes)
    requires bs > 0
    ensures |b| == bs && b[bs - 1] == c
  {
    var full := Repeat(bs, FILLER) + known + [FILLER];
    full[|full| - bs ..][bs - 1 := c]
  }

  /** The ciphertext of the probe for candidate i. */
  function ProbeCipher(o: Oracle, known: Bytes, bs: nat, i: int): Bytes
    requires bs > 0 && 0 <= i < 256
  {
    o(ProbeBlock(known, bs, i as bv8))
  }

  /** dict[i] agrees with block on the first |block| bytes. */
  predicate Matches(entry: Bytes, block: Bytes) {
    |entry| >= |block| && entry[..|block|] == block
  }

  /** What `build_dict` returns: the first bs bytes of the ciphertext of each of the
      256 probes, or OutOfRange when one ciphertext is shorter than bs. */
  function DictOf(o: Oracle, known: Bytes, bs: nat): (r: Result<seq<Bytes>>)
    requires bs > 0
    ensures r.Success? ==> |r.value| == 256
    ensures r.Success? ==> forall i :: 0 <= i < 256 ==> |r.value[i]| == bs
  {
    if exists i :: 0 <= i < 256 && |ProbeCipher(o, known, bs, i)| < bs then Failure(OutOfRange)
    else Success(seq(256, i requires 0 <= i < 256 => ProbeCipher(o, known, bs, i)[..bs]))
  }

  method BuildDict(known: Bytes, oracle: Oracle, blockSize: nat) returns (r: Result<seq<Bytes>>)
    requires blockSize > 0
    ensures r == DictOf(oracle, known, blockSize)
  {
    var out := new Bytes[256](_ => []);
    var full := Repeat(blockSize, FILLER) + known + [FILLER];
    var window := full[|full| - blockSize ..];
    var block := new bv8[blockSize](j => if 0 <= j < |window| then window[j] else 0);
    for i := 0 to 256
      invariant forall j :: 0 <= j < blockSize - 1 ==> block[j] == window[j]
      invariant forall k :: 0 <= k < i ==> DictEntry(oracle, known, blockSize, k, out[k])
    {
      block[blockSize - 1] := i as bv8;
      var probe := block[..];
      ProbeWindow(known, blockSize, i as bv8, window, probe);
      var cipher := oracle(probe);
      assert cipher == ProbeCipher(oracle, known, blockSize, i);
      if |cipher| < blockSize {
        DictShort(oracle, known, blockSize, i);
        return Failure(OutOfRange);
      }
      out[i] := cipher[..blockSize];
    }
    DictFull(oracle, known, blockSize, out[..]);
    return Success(out[..]);
  }

  /** Entry i of the dictionary is the first bs bytes of a long enough probe ciphertext. */
  predicate DictEntry(o: Oracle, known: Bytes, bs: nat, i: int, entry: Bytes)
    requires bs > 0 && 0 <= i < 256
  {
    |ProbeCipher(o, known, bs, i)| >= bs && entry == ProbeCipher(o, known, bs, i)[..bs]
  }

  lemma DictShort(o: Oracle, known: Bytes, bs: nat, i: int)
    requires bs > 0 && 0 <= i < 256 && |ProbeCipher(o, known, bs, i)| < bs
    ensures DictOf(o, known, bs) == Failure(OutOfRange)
  {
  }

  lemma DictFull(o: Oracle, known: Bytes, bs: nat, entries: seq<Bytes>)
    requires bs > 0 && |entries| == 256
    requires forall k :: 0 <= k < 256 ==> DictEntry(o, known, bs, k, entries[k])
    ensures DictOf(o, known, bs) == Success(entries)
  {
    forall i | 0 <= i < 256 ensures |ProbeCipher(o, known, bs, i)| >= bs {
      assert DictEntry(o, known, bs, i, entries[i]);
    }
    assert entries == seq(256, i requires 0 <= i < 256 => ProbeCipher(o, known, bs, i)[..bs]);
  }

  /** The probe block is the last bs bytes of the filler-padded known bytes with
      its final byte replaced. */
  lemma ProbeWindow(known: Bytes, bs: nat, c: bv8, window: Bytes, b: Bytes)
    requires bs > 0
    requires window == (Repeat(bs, FILLER) + known + [FILLER])[|known| + 1 ..]
    requires |b| == bs && b[bs - 1] == c
    requires forall j :: 0 <= j < bs - 1 ==> b[j] == window[j]
    ensures b == ProbeBlock(known, bs, c)
  {
  }

  /** The least i in from..256 whose entry agrees with block. */
  function LeastMatch(dict: seq<Bytes>, block: Bytes, from: nat): (r: Option<nat>)
    requires |dict| >= 256 && from <= 256
    ensures r.Some? ==> from <= r.value < 256 && Matches(dict[r.value], block)
    ensures r.Some? ==> forall i :: from <= i < r.value ==> !Matches(dict[i], block)
    ensures r.None? ==> forall i :: from <= i < 256 ==> !Matches(dict[i], block)
    decreases 256 - from
  {
    if from == 256 then None
    else if Matches(dict[from], block) then Some(from)
    else LeastMatch(dict, block, from + 1)
  }

  /** What `find_char_in_dict` returns: the least i < 256 whose entry agrees with
      block, or NoDictionaryMatch (a panic in the source) when there is none. */
  function FindOf(dict: seq<Bytes>, block: Bytes): (r: Result<bv8>)
    requires |dict| >= 256
    ensures r.Success? <==> exists i: int :: 0 <= i < 256 && Matches(dict[i], block)
    ensures r.Failure? ==> r.error == NoDictionaryMatch
    ensures r.Success? ==> exists i: int :: 0 <= i < 256 && Matches(dict[i], block) && r.value == i as bv8 &&
                                       forall k: int :: 0 <= k < i ==> !Matches(dict[k], block)
  {
    match LeastMatch(dict, block, 0)
    case None => Failure(NoDictionaryMatch)
    case Some(i) => Success(i as bv8)
  }

  /** `find_char_in_dict`. Reading `dict[i][j]` needs every entry to be at least as
      long as the target block. */
  method FindCharInDict(dict: seq<Bytes>, block: Bytes) returns (r: Result<bv8>)
    requires |dict| >= 256
    requires forall i :: 0 <= i < 256 ==> |dict[i]| >= |block|
    ensures r == FindOf(dict, block)
  {
    for i := 0 to 256
      invariant forall k: int :: 0 <= k < i ==> !Matches(dict[k], block)
    {
      var good := true;
      for j := 0 to |block|
        invariant good
        invariant dict[i][..j] == block[..j]
      {
        if block[j] != dict[i][j] {
          good := false;
          break;
        }
      }
      if good {
        assert dict[i][..|block|] == block;
        var least := LeastMatch(dict, block, 0);
        assert least == Some(i);
        return Success(i as bv8);
      }
    }
    return Failure(NoDictionaryMatch);
  }

  /** The target block of round n: block n / bs of the ciphertext of
      bs - n % bs - 1 filler bytes. */
  function TargetOf(o: Oracle, bs: nat, n: nat): (r: Result<Bytes>)
    requires bs > 0
    ensures r.Success? ==> |r.value| == bs
  {
    var cipher := o(Repeat(bs - n % bs - 1, FILLER));
    var start := n / bs * bs;
    if |cipher| < start + bs then Failure(OutOfRange) else Success(cipher[start .. start + bs])
  }

  /** One round: the byte whose dictionary entry matches the target block. */
  function StepOf(o: Oracle, bs: nat, known: Bytes): (r: Result<bv8>)
    requires bs > 0
    ensures r.Success? ==> DictOf(o, known, bs).Success? && TargetOf(o, bs, |known|).Success?
    ensures r.Success? ==> exists i: int :: (0 <= i < 256 && r.value == i as bv8
              && Matches(DictOf(o, known, bs).value[i], TargetOf(o, bs, |known|).value))
    ensures r.Failure? ==> r.error == OutOfRange || r.error == NoDictionaryMatch
  {
    var dict :- DictOf(o, known, bs);
    var target :- TargetOf(o, bs, |known|);
    FindOf(dict, target)
  }

  /** The rounds from the recovered bytes pt on, until there are len of them. */
  function RecoverFrom(o: Oracle, bs: nat, len: nat, pt: Bytes): (r: Result<Bytes>)
    requires bs > 0
    ensures r.Success? ==> |r.value| == (if |pt| >= len then |pt| else len) && r.value[..|pt|] == pt
    decreases len - |pt|
  {
    if |pt| >= len then Success(pt)
    else
      var c :- StepOf(o, bs, pt);
      RecoverFrom(o, bs, len, pt + [c])
  }

  /** A round that succeeds appends its byte and leaves the rest to the next rounds. */
  lemma RecoverFromStep(o: Oracle, bs: nat, len: nat, pt: Bytes)
    requires bs > 0 && |pt| < len && StepOf(o, bs, pt).Success?
    ensures RecoverFrom(o, bs, len, pt) == RecoverFrom(o, bs, len, pt + [StepOf(o, bs, pt).value])
  {
  }

  /** What `recover_ecb_suffix` returns. */
  function RecoverOf(o: Oracle, bound: nat): (r: Result<Bytes>)
    requires LengthChangesWithin(o, bound)
    ensures r.Success? ==> SuffixLenOf(o, bound).Success? && |r.value| == SuffixLenOf(o, bound).value
  {
    var bs :- BlocksizeOf(o, bound);
    var len :- SuffixLenOf(o, bound);
    RecoverFrom(o, bs, len, [])
  }

  /** One round of `recover_ecb_suffix`: the dictionary, the target block and the
      lookup, each failing as StepOf does. */
  method RecoverStep(oracle: Oracle, blockSize: nat, plaintext: Bytes) returns (r: Result<bv8>)
    requires blockSize > 0
    ensures r == StepOf(oracle, blockSize, plaintext)
  {
    var dict :- BuildDict(plaintext, oracle, blockSize);
    var payload := Repeat(blockSize - |plaintext| % blockSize - 1, FILLER);
    var start := |plaintext| / blockSize * blockSize;
    var cipher := oracle(payload);
    if |cipher| < start + blockSize {
      assert TargetOf(oracle, blockSize, |plaintext|) == Failure(OutOfRange);
      return Failure(OutOfRange);
    }
    var block := cipher[start .. start + blockSize];
    assert TargetOf(oracle, blockSize, |plaintext|) == Success(block);
    assert |dict| == 256 && forall i :: 0 <= i < 256 ==> |dict[i]| == |block|;
    r := FindCharInDict(dict, block);
  }

  method RecoverEcbSuffix(oracle: Oracle, ghost bound: nat) returns (r: Result<Bytes>)
    requires LengthChangesWithin(oracle, bound)
    ensures r == RecoverOf(oracle, bound)
  {
    var blockSize :- DetectBlocksize(oracle, bound);
    var plaintext: Bytes := [];
    ghost var total := if SuffixLenOf(oracle, bound).Success? then SuffixLenOf(oracle, bound).value else 0;
    while true
      invariant SuffixLenOf(oracle, bound).Success? ==>
        RecoverFrom(oracle, blockSize, total, plaintext) == RecoverOf(oracle, bound)
      decreases total - |plaintext|
    {
      var suffixLen :- DetectSuffixLen(oracle, bound);
      if |plaintext| >= suffixLen {
        return Success(plaintext);
      }
      var foundChar :- RecoverStep(oracle, blockSize, plaintext);
      plaintext := plaintext + [foundChar];
    }
  }
}
