# cryptopals attack engine, modelled in Dafny

This project models two parts of the cryptopals toolkit:

- The chosen-plaintext attack engine in `src/lib.rs`. It probes an encryption
  oracle and reasons about two things: ciphertext lengths, and block equality at
  block-aligned offsets. From these it finds the block size, the cipher mode, the
  prefix length, the combined prefix-and-suffix length, and, byte by byte, a
  secret suffix.
- The byte utilities of the frequency-analysis component: the XOR helpers,
  `hamming_distance`, and the transposition step of `crack_vigenere`.

It also models the oracle construction of `aes_oracle/src/lib.rs`.

The oracle is a Dafny function value `Bytes -> Bytes`, so it is deterministic by
construction. Every probe of the engine relies on that.

Each probing method of the engine is proved equal to a specification function of
the oracle (`Attack.BlocksizeOf`, `Attack.SuffixLenOf`, `Attack.RecoverOf`, …).
Module `AttackOnEcb` then proves what those functions return against a padded
ECB model (module `EcbModel`):

- the plaintext is prefix ++ data ++ suffix;
- it is padded as in PKCS#7 (RFC 5652 section 6.3);
- it is cut into blocks of `bs` bytes, for any `0 < bs < 256`;
- each block goes through an arbitrary length-preserving, injective block function.

Main results against that model:

- `detect_blocksize` returns `bs`.
- `detect_suffix_len` returns |prefix| + |suffix|.
- `detect_prefix_blocks_count` returns |prefix| / bs.
- `detect_prefix_len` returns |prefix|.
- With 16-byte blocks, `detect_encryption_mode` says ECB, whatever the prefix.
- With no prefix, `recover_ecb_suffix` returns exactly the suffix.

Module `AesOracles` connects the `AesOracle` struct to that model. Its `encrypt`
hands `prefix ++ data ++ suffix` to the AES primitive. Under an ECB-mode AES
assumption (`AesOracles.IsAesEcb`), an oracle built by `new` with a fixed suffix
gives that suffix back to `recover_ecb_suffix`.

The source's probing loops `loop { … }` (`detect_blocksize`) and
`while current_size == initial_size` (`detect_suffix_len`) have no bound. The
methods take a ghost `bound`: a number of zero bytes at which the output length
has changed (`Attack.LengthChangesWithin`). Against the ECB model the bound is
`bs`, so each loop pushes at most `bs` bytes.

A panic in the source becomes a `Failure` of `Common.Result`, with one error kind
per cause:

- `panic!`;
- a `usize` subtraction below zero;
- a slice past the end of an oracle output;
- an `unwrap` of a missing iv.

Indexing into data the caller supplies is a precondition instead.

Two behaviours of the code are easy to misread. The model follows the code in both:

- Against an oracle with a prefix, `detect_suffix_len` answers the prefix length
  plus the suffix length, not the suffix length alone (`AttackOnEcb.SuffixLenOnEcb`).
- `detect_blocksize` and `detect_suffix_len` loop without a bound rather than
  reporting an indeterminate result.

## Model

| member | source | states |
|---|---|---|
| XorTools.DoXor | src/lib.rs:11-23 | Given `right` at least as long as `left` (the indexing at line 19 demands it), `do_xor` always succeeds with `|left|` bytes, byte i being `left[i] ^ right[i]`. |
| XorTools.XorGuardNeverFires | src/lib.rs:12-14 | The length guard compares `right.len()` with itself and never fires, whatever the inputs. |
| XorTools.XorAcceptsMismatch | src/lib.rs:11-23 | Inputs of different lengths pass the guard: `[1]` XOR `[1, 2]` gives `[0]`. |
| XorTools.XorChecked | src/lib.rs:11-23 | The intended `do_xor` succeeds exactly when the lengths agree. It fails with LengthMismatch otherwise, and XORs byte by byte. |
| XorTools.XorCheckedInvolution | src/lib.rs:11-23 | XOR with the same right operand undoes itself. |
| XorTools.SingleXor | src/lib.rs:25-27 | `do_single_xor` keeps the length, and byte i of the result is `input[i] ^ k`. |
| XorTools.SingleXorInvolution | src/lib.rs:25-27 | Applying `do_single_xor` twice with one key gives back the input. |
| XorTools.Vigenere | src/lib.rs:61-69 | Repeating-key XOR keeps the input length. A non-empty input needs a non-empty key, because `i % key.len()` divides by the key length. |
| XorTools.DoVigenere | src/lib.rs:61-69 | The loop computes exactly the repeating-key XOR `XorTools.Vigenere`: `|input|` bytes with `out[i] = input[i] ^ key[i % |key|]`. |
| XorTools.VigenereOneByteKey | src/lib.rs:61-69 | With a one-byte key, `do_vigenere` equals `do_single_xor`. |
| XorTools.CountOnes | src/lib.rs:131 | `count_ones` of a byte is at most 8, and 0 for the zero byte. |
| XorTools.BitDiff | src/lib.rs:130-132 | The summed bit differences of two equal-length inputs are at most 8 per byte. |
| XorTools.HammingDistance | src/lib.rs:125-133 | `hamming_distance` fails exactly on unequal lengths, and is at most 8·len otherwise. |
| XorTools.BitDiffSelf | src/lib.rs:130-132 | An input differs from itself in no bit. |
| XorTools.HammingSelf | src/lib.rs:125-133 | The distance of an input to itself is 0. |
| XorTools.BitDiffSymmetric | src/lib.rs:130-132 | The bit-difference sum does not depend on the order of the operands. |
| XorTools.HammingSymmetric | src/lib.rs:125-133 | `hamming_distance` is symmetric, failures included. |
| XorTools.ColumnAt | src/lib.rs:79-83 | Sub-stream i holds exactly the input bytes at positions `t * ks + i`, in order, for every such position below the input length. |
| XorTools.Column | src/lib.rs:77-83 | A sub-stream is never longer than the input, and is empty for an index at or beyond the key size. `XorTools.ColumnAt` states its exact contents. |
| XorTools.ColumnStep | src/lib.rs:79-83 | Pushing byte j extends sub-stream `j % ks` by that byte and leaves the others unchanged. |
| XorTools.CrackVigenere | src/lib.rs:71-92 | The transposition fills sub-stream i with the input bytes at positions j where `j % key_size == i`. The key has exactly `key_size` bytes, byte i being the solver's answer for sub-stream i. |
| Attack.FirstChangeFrom | src/lib.rs:216-226 | The first payload length from k on at which the ciphertext length differs from the empty input's, with no change before it. |
| Attack.FirstChangeIsLeast | src/lib.rs:216-226 | A change point with no change before it is the one the probing loop stops at. |
| Attack.BlocksizeOf | src/lib.rs:201-227 | On an oracle whose length changes, a successful `detect_blocksize` answer is positive. |
| Attack.DetectBlocksize | src/lib.rs:201-227 | The loop returns the growth of the ciphertext length at the first change. If the length shrank, the unsigned subtraction fails with Underflow. |
| Attack.DetectSuffixLen | src/lib.rs:266-277 | The loop returns the initial ciphertext length minus the number of zero bytes that first changed it. It fails with Underflow when that number is larger. |
| Attack.SuffixLenOf | src/lib.rs:266-277 | `detect_suffix_len` succeeds exactly when the first change point is at most the initial length. Otherwise it fails with Underflow. The answer is below the initial length, and adding the number of zero bytes that first changed the length gives the initial length back. |
| Attack.DetectPadding | src/lib.rs:305-307 | Fails with Underflow when the one-byte ciphertext is longer than the empty one. Otherwise it returns whether the difference is a multiple of the detected block size. |
| Attack.PaddingOf | src/lib.rs:305-307 | `detect_padding` fails with Underflow whenever `encrypt([0])` is longer than `encrypt([])`, and it has no other failure. When the two lengths are equal and the block size is detected, it answers true. |
| Attack.PaddingCorrected | src/lib.rs:305-307 | The corrected padding test is true exactly when the difference of the two lengths is a multiple of the block size. That holds whichever order the difference is taken in, so the test needs no unsigned subtraction. |
| Attack.DetectPrefixPlusSuffixLen | src/lib.rs:279-303 | Returns the initial length when no padding is detected. Otherwise it returns `initial - index + 1` for the first change index in `1..=bs`. It fails with NoLengthChange when there is no such index, and with Underflow when the index exceeds the initial length. |
| Attack.PrefixPlusSuffixOf | src/lib.rs:279-303 | `detect_prefix_plus_suffix_len` answers the initial length when `detect_padding` answers false, and fails with Underflow when `detect_padding` fails. Its only failures are Underflow and NoLengthChange, and it never answers more than the initial length. |
| Attack.PrefixPlusSuffixCorrectedOf | src/lib.rs:279-303 | The corrected length probe fails only with Underflow or NoLengthChange, and never answers more than the initial length. Suppose the block size is detected, the corrected padding test holds, and the length changes within one block's worth of zero bytes. Then it agrees with `detect_suffix_len` for that block size: `initial - index`, without the `+ 1`. |
| Attack.FirstDiff | src/lib.rs:231-235 | `zip(..).position(x != y)` returns the first index where the two chunk lists differ, with agreement before it, or None when every common index agrees. |
| Attack.FirstDiffAt | src/lib.rs:231-235 | A differing index with agreement before it is the position found. |
| Attack.DetectPrefixBlocksCount | src/lib.rs:229-241 | Returns the first index at which the `bs`-chunks of `encrypt([0])` and `encrypt([1])` differ. It fails with PrefixNotFound when they never differ. |
| Attack.PrefixBlocksCountOf | src/lib.rs:229-241 | On success the block size was detected. The answer is an index at which the `bs`-chunks of `encrypt([0])` and `encrypt([1])` differ, and they agree at every earlier index. The only failures are Underflow and PrefixNotFound. |
| Attack.ProbeFrom | src/lib.rs:252-260 | The scan of `do_with_constant` answers a value between its start and `bs`. |
| Attack.ProbeOf | src/lib.rs:249-261 | `do_with_constant(c)` answers at most `bs`, or OutOfRange when the initial block is missing. |
| Attack.ProbeConstant | src/lib.rs:249-261 | The loop returns the least i whose ciphertext block at the offset is missing or differs from the initial block, or `bs`. |
| Attack.PrefixLenOf | src/lib.rs:243-264 | A successful `detect_prefix_len` answer lies between count·bs and count·bs + bs. |
| Attack.PrefixLenAt | src/lib.rs:263 | The sum of the offset and the smaller probe lies between offset and offset + bs. |
| Attack.DetectPrefixLen | src/lib.rs:243-264 | Block size and block count are detected first. The method then returns the offset plus the smaller of the probes with 0 and 1, each probe failing as the source does. |
| Attack.ProbeBoth | src/lib.rs:263 | Runs the two probes, in order, and takes their minimum. |
| Attack.DistinctCount | src/lib.rs:143-150 | The number of distinct chunks is at most the number of chunks, and is smaller exactly when two chunks are equal. This is what sort followed by dedup detects. |
| Attack.DetectEcb | src/lib.rs:143-150 | `detect_ecb` is true exactly when two of the input's 16-byte chunks are equal. |
| Attack.DetectEncryptionMode | src/lib.rs:190-199 | The mode is ECB exactly when the ciphertext of 48 zero bytes repeats a 16-byte chunk. |
| Attack.ProbeBlock | src/lib.rs:175-183 | The dictionary probe has `bs` bytes and ends in the candidate byte. |
| Attack.DictOf | src/lib.rs:170-188 | A successful dictionary has 256 entries of `bs` bytes each. |
| Attack.BuildDict | src/lib.rs:170-188 | The loop over the in-place block yields entry i = the first `bs` bytes of the ciphertext of the window with last byte i. It fails with OutOfRange when a ciphertext is shorter than `bs`. |
| Attack.LeastMatch | src/lib.rs:154-165 | The least index from a start point whose entry agrees with the target, or None when no entry does. |
| Attack.FindOf | src/lib.rs:152-168 | `find_char_in_dict` succeeds exactly when some entry below 256 agrees with the block on its first `|block|` bytes. It then returns the least such index, and fails with NoDictionaryMatch otherwise. |
| Attack.FindCharInDict | src/lib.rs:152-168 | The nested loop with its `good` flag computes that least match. |
| Attack.TargetOf | src/lib.rs:317-320 | The target block has `bs` bytes, or the slice fails with OutOfRange. |
| Attack.RecoverStep | src/lib.rs:315-322 | One round builds the dictionary, then the payload of `bs - n % bs - 1` filler bytes, then the target block at `n / bs * bs`, then the lookup. |
| Attack.StepOf | src/lib.rs:315-322 | A successful round has built its dictionary and sliced its target block. It answers a byte i whose dictionary entry matches the target. It fails only with OutOfRange or NoDictionaryMatch. |
| Attack.RecoverFrom | src/lib.rs:313-324 | Successful rounds extend the bytes recovered so far without changing them, until there are as many as the suffix length asked for. |
| Attack.RecoverEcbSuffix | src/lib.rs:309-327 | The loop re-detects the suffix length on every iteration and appends one recovered byte per round. It returns what the round functions compute from the empty plaintext. |
| Attack.RecoverOf | src/lib.rs:309-327 | A successful `recover_ecb_suffix` returns exactly as many bytes as `detect_suffix_len` answers. |
| AttackOnEcb.EcbSlice | src/lib.rs:184 | Against the ECB model, a ciphertext block is the block function of the padded plaintext block. |
| EcbModel.ChunksJoin | src/lib.rs:144 | Rust's `chunks(bs)`, as modelled by `EcbModel.Chunks`, loses nothing. Each piece has 1 to `bs` bytes, every piece but the last has exactly `bs`, and the pieces joined back together give the input. |
| AttackOnEcb.LengthLawEcb | src/lib.rs:201-227 | Against the ECB model, n zero bytes give (⌊(T + n) / bs⌋ + 1)·bs ciphertext bytes, where T is the prefix length plus the suffix length. |
| AttackOnEcb.NoChangeBefore | src/lib.rs:216-226 | Fewer than `bs - T % bs` zero bytes leave the ciphertext length unchanged. |
| AttackOnEcb.ChangeFrom | src/lib.rs:216-226 | From `bs - T % bs` up to `bs` zero bytes, the ciphertext is one block longer. |
| AttackOnEcb.FirstChangeEcb | src/lib.rs:216-226 | The length first changes after `bs - T % bs` zero bytes (at most `bs`), by exactly one block. |
| AttackOnEcb.BlocksizeOnEcb | src/lib.rs:201-227 | `detect_blocksize` returns `bs`. |
| AttackOnEcb.SuffixLenOnEcb | src/lib.rs:266-277 | `detect_suffix_len` returns the prefix length plus the suffix length. |
| AttackOnEcb.PaddingOnEcb | src/lib.rs:305-307 | `detect_padding` as written underflows exactly when `T % bs == bs - 1`, and answers true otherwise. |
| AttackOnEcb.PaddingCorrectedOnEcb | src/lib.rs:305-307 | The corrected padding test answers true on every ECB oracle. |
| AttackOnEcb.PrefixPlusSuffixOnEcb | src/lib.rs:279-303 | `detect_prefix_plus_suffix_len` as written answers T + 1, and underflows where `detect_padding` does. |
| AttackOnEcb.PrefixPlusSuffixCorrectedOnEcb | src/lib.rs:279-303 | The corrected length probe answers T on every ECB oracle. |
| AttackOnEcb.PrefixChunk | src/lib.rs:231-235 | A block inside the prefix is enciphered alike for the data `[0]` and `[1]`. |
| AttackOnEcb.DataChunk | src/lib.rs:231-235 | The block holding the first data byte differs between `[0]` and `[1]`, by injectivity. |
| AttackOnEcb.FirstDiffEcb | src/lib.rs:231-235 | The first differing chunk of `encrypt([0])` and `encrypt([1])` is chunk |prefix| / bs. |
| AttackOnEcb.PrefixBlocksCountOnEcb | src/lib.rs:229-241 | `detect_prefix_blocks_count` returns |prefix| / bs. |
| AttackOnEcb.ProbeFromEcb | src/lib.rs:252-260 | Let r be the prefix's offset inside its last block. A probe scan started at any i up to r answers at least r. It answers exactly r when c differs from `NextByte(S)`: the first suffix byte, or 1 (the one-byte padding) when the suffix is empty. |
| AttackOnEcb.ProbeOfEcb | src/lib.rs:249-261 | `do_with_constant(c)` succeeds with at least r. It answers exactly r when c differs from the first suffix byte, or from 1 (the one-byte padding) when the suffix is empty. |
| AttackOnEcb.PrefixLenOnEcb | src/lib.rs:243-264 | `detect_prefix_len` returns |prefix|: one of the fillers 0 and 1 differs from the byte after the prefix. |
| AttackOnEcb.EncryptionModeOnEcb | src/lib.rs:190-199 | With 16-byte blocks, 48 zero bytes fill two whole blocks, which encipher alike. So the mode is ECB for any prefix. |
| AttackOnEcb.DictOnEcb | src/lib.rs:170-188 | Without a prefix, dictionary entry i is the block function of the probe block ending in i. |
| AttackOnEcb.TargetOnEcb | src/lib.rs:317-320 | The target block of round n is the block function of the probe block whose last byte is suffix byte n. |
| AttackOnEcb.StepOnEcb | src/lib.rs:315-323 | Round n recovers suffix byte n, by injectivity of the block function. |
| AttackOnEcb.RecoverFromOnEcb | src/lib.rs:313-324 | From any correctly recovered beginning of the suffix, the remaining rounds yield the whole suffix. |
| AttackOnEcb.RecoverOnEcb | src/lib.rs:309-327 | Against an ECB oracle without a prefix, `recover_ecb_suffix` returns exactly the suffix. |
| AesOracles.AesOracle.Cipher | aes_oracle/src/lib.rs:88-112 | `encrypt` fails exactly in CBC mode without an iv (the `unwrap`), and never on a valid oracle. |
| AesOracles.AesOracle.Encrypt | aes_oracle/src/lib.rs:88-112 | The successive extensions build `prefix ++ data ++ suffix`, an absent part contributing nothing. The mode's primitive is applied to that. |
| AesOracles.FillBytes | aes_oracle/src/lib.rs:30-32 | Filling a buffer from the drawn bytes, one at a time, keeps the first n draws. |
| AesOracles.New | aes_oracle/src/lib.rs:19-85 | `new` gives a 16-byte key and keeps a fixed mode, otherwise choosing ECB or CBC. The iv is present (16 bytes) exactly in CBC mode. A fixed suffix is stored as given, with no prefix. Otherwise suffix and prefix have 5 to 9 bytes each. |
| AesOracles.OracleChallenge14.Encrypt | aes_oracle/src/lib.rs:170-173 | Delegates unchanged to the inner oracle. |
| AesOracles.NewChallenge14 | aes_oracle/src/lib.rs:140-167 | The challenge-14 oracle is ECB with no iv, a 16-byte key, the given suffix, and a prefix of 5 to 24 bytes. |
| AesOracles.EcbOracleModel | aes_oracle/src/lib.rs:87-112 | A valid ECB-mode oracle over ECB-mode AES is an ECB model oracle with its own prefix and suffix. |
| AesOracles.ModeDetectedOnAesEcb | aes_oracle/src/lib.rs:87-112 | `detect_encryption_mode` answers ECB for every valid ECB-mode oracle, whatever prefix and suffix it holds. |
| AesOracles.Challenge14PrefixLen | aes_oracle/src/lib.rs:135-173 | Against the challenge-14 oracle, `detect_prefix_len` finds the prefix length. |
| AesOracles.Challenge14SuffixLen | aes_oracle/src/lib.rs:135-173 | Against the challenge-14 oracle, `detect_suffix_len` answers the prefix length plus the suffix length. |
| AesOracles.RecoverFixedSuffix | aes_oracle/src/lib.rs:19-85 | An oracle built by `new` in ECB mode around a fixed suffix gives exactly that suffix back to `recover_ecb_suffix`. |

## Left out

- The AES primitive and its padding (the `aes` crate) are not part of this model. `AesOracles.Aes` holds the ECB and CBC encryption functions as parameters. The correctness lemmas assume PKCS#7 padding and an injective block function (`AesOracles.IsAesEcb`, `EcbModel.IsEcbOracle`).
- CBC encryption is a parameter and nothing is proved about it. In particular, the claim that `detect_encryption_mode` never names a CBC oracle ECB is not modelled: it is probabilistic.
- `decrypt_aes_128_ecb` is left out: it calls openssl.
- `crack_single_xor`, `guess_key_size` and `build_charstat_dict` are left out. All three compute with floating-point scores, and the last one reads a file. `XorTools.CrackVigenere` takes the key size and the single-byte solver as parameters instead.
- The `println!` calls are not modelled.
- The random draws of `new` and `OracleChallenge14::new` are parameters within the ranges the generator guarantees (`AesOracles.Draws`). No distribution is modelled.
- The base64 decoding of the challenge-14 suffix is a parameter: the decoded bytes.
- The `Display` impl of `AesOracle` is left out: it is formatting only.
- `cookie_oracle` is not part of this model.
- An oracle's `encrypt` returns a `Result`, and each `?` on it would propagate an error. The oracle is modelled as a total function, so these error paths are left out. The same holds for "should never happen" at `src/lib.rs:292`.
- Attack.DetectEcb: models the in-place `sort` and `dedup` of `detect_ecb` by their outcome: the set of distinct chunks. The sorting itself is not modelled.
- Attack.DetectPadding, `Attack.DetectBlocksize`, `Attack.DetectSuffixLen` and `Attack.DetectPrefixPlusSuffixLen` model the `usize` subtractions at `src/lib.rs:306`, 224, 276 and 296 as they behave in a debug build: a panic, here Underflow. A release build wraps around instead, and the model does not follow that. For `detect_padding`, with a block size that divides 2^64, such as 16, the wrapped difference is still a multiple of the block size. The corrected test `Attack.PaddingCorrected` gives the same answer.
- XorTools.HammingDistance: uses unbounded integers. The source's `u32` sum cannot overflow for inputs shorter than 2^29 bytes, and longer ones are not considered.
- AesOracles.New: `new` grows the suffix and prefix `Vec`s by `push`. The model fills an array of the final length (AesOracles.FillBytes), as for the key. The unreachable `panic!` for a mode draw other than 0 or 1 is excluded by `Draws.Valid`.
- Attack.RecoverEcbSuffix, `Attack.DetectBlocksize`, `Attack.DetectSuffixLen`, `Attack.DetectPrefixPlusSuffixLen`, `Attack.DetectPadding`, `Attack.DetectPrefixBlocksCount` and `Attack.DetectPrefixLen` are proved for an oracle whose output length changes somewhere (the ghost `bound`). For other oracles the source's loops do not terminate, and the model says nothing about them.
- AttackOnEcb.RecoverOnEcb: covers only the case without a prefix. With a prefix, the source's round arithmetic ignores the prefix, and the byte-at-a-time recovery is not claimed to work.

## Findings

| source | as written | input that shows it | evidently intended | confidence | as-written member | corrected member |
|---|---|---|---|---|---|---|
| src/lib.rs:12 | `if right.len() != right.len()` compares one length with itself, so the guard never fires | `do_xor([1], [1, 2])` returns `[0]` instead of reporting the length mismatch | fail when `left.len() != right.len()`; the corrected XOR is an involution | not executed | XorTools.XorAcceptsMismatch | XorTools.XorCheckedInvolution |
| src/lib.rs:306 | `encrypt([]).len() - encrypt([0]).len()` subtracts the longer length from the shorter one | an ECB oracle with 16-byte blocks and prefix plus suffix of 15 bytes: 16 bytes for `[]` and 32 for `[0]`, an underflow | compare the two lengths whichever is longer (`Attack.PaddingCorrected`), which answers true on every ECB oracle | not executed | AttackOnEcb.PaddingOnEcb | AttackOnEcb.PaddingCorrectedOnEcb |
| src/lib.rs:296 | `initial_size - index + 1` | an ECB oracle with 16-byte blocks and prefix plus suffix of T = 5 bytes: initial 16, index 11, answer 6 | `initial_size - index`, which is T, as `detect_suffix_len` computes (`Attack.PrefixPlusSuffixCorrectedOf`) | not executed | AttackOnEcb.PrefixPlusSuffixOnEcb | AttackOnEcb.PrefixPlusSuffixCorrectedOnEcb |
