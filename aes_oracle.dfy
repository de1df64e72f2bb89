/** The oracle construction of aes_oracle/src/lib.rs: an AES oracle that enciphers
    prefix ++ data ++ suffix, its constructor, and the challenge-14 oracle.

    The AES primitives of the external `aes` crate are a parameter, and so are the
    values the constructors draw from the random number generator. */
module AesOracles {
  import opened Common
  import opened EcbModel
  import opened Attack
  import opened AttackOnEcb

  /** `aes::encrypt_aes_128_ecb(data, key)` and `aes::encrypt_aes_128_cbc(data, key, iv)`. */
  datatype Aes = Aes(ecb: (Bytes, Bytes) -> Bytes, cbc: (Bytes, Bytes, Bytes) -> Bytes)

  /** `AesOracle`. Its fields are set once, by the constructors, and never change. */
  datatype AesOracle = AesOracle(mode: Mode, key: Bytes, iv: Option<Bytes>, suffix: Option<Bytes>, prefix: Option<Bytes>)
  {
    /** What the constructors establish: a 16-byte key, and a 16-byte iv exactly in CBC mode. */
    predicate Valid() {
      && |key| == 16
      && (iv.Some? <==> mode == CBC)
      && (iv.Some? ==> |iv.value| == 16)
    }

    /** An absent prefix contributes no bytes. */
    function PrefixBytes(): Bytes {
      if prefix.Some? then prefix.value else []
    }

    /** An absent suffix contributes no bytes. */
    function SuffixBytes(): Bytes {
      if suffix.Some? then suffix.value else []
    }

    /** What `encrypt` returns: the chosen primitive applied to prefix ++ data ++ suffix;
        the `unwrap` of the iv fails in CBC mode without an iv. */
    function Cipher(aes: Aes, data: Bytes): (r: Result<Bytes>)
      ensures r.Failure? <==> mode == CBC && iv.None?
      ensures r.Failure? ==> r.error == MissingIv
      ensures Valid() ==> r.Success?
    {
      var plain := PrefixBytes() + data + SuffixBytes();
      match mode
      case ECB => Success(aes.ecb(plain, key))
      case CBC => if iv.None? then Failure(MissingIv) else Success(aes.cbc(plain, key, iv.value))
    }

    /** `Oracle::encrypt`: the plaintext is assembled by successive extensions. */
    method Encrypt(aes: Aes, data: Bytes) returns (r: Result<Bytes>)
      ensures r == Cipher(aes, data)
    {
      var trueData: Bytes := [];
      match prefix {
        case Some(b) => trueData := trueData + b;
        case None =>
      }
      trueData := trueData + data;
      match suffix {
        case Some(b) => trueData := trueData + b;
        case None =>
      }
      assert trueData == PrefixBytes() + data + SuffixBytes();
      match mode {
        case ECB => return Success(aes.ecb(trueData, key));
        case CBC =>
          if iv.None? {
            return Failure(MissingIv);
          }
          return Success(aes.cbc(trueData, key, iv.value));
      }
    }

    /** A valid oracle as the deterministic function the attack engine probes. */
    function AsOracle(aes: Aes): Oracle
      requires Valid()
    {
      d => Cipher(aes, d).value
    }
  }

  /** The values `new` draws from the random number generator, in the ranges the
      generator guarantees: `gen_range(0..2)` for the mode and `gen_range(5..10)` for
      the lengths. Only the first 16 key and iv bytes and the first suffixLen and
      prefixLen bytes are used. */
  datatype Draws = Draws(keyBytes: Bytes, modeChoice: nat, ivBytes: Bytes,
                         suffixLen: nat, suffixBytes: Bytes, prefixLen: nat, prefixBytes: Bytes)
  {
    predicate Valid() {
      && |keyBytes| >= 16 && modeChoice < 2 && |ivBytes| >= 16
      && 5 <= suffixLen < 10 && |suffixBytes| >= suffixLen
      && 5 <= prefixLen < 10 && |prefixBytes| >= prefixLen
    }
  }

  /** Copies the first n drawn bytes one by one, as the constructors' loops do. */
  method FillBytes(draws: Bytes, n: nat) returns (out: Bytes)
    requires |draws| >= n
    ensures out == draws[..n]
  {
    var buf := new bv8[n](_ => 0);
    for i := 0 to n
      invariant buf[..i] == draws[..i]
    {
      buf[i] := draws[i];
    }
    out := buf[..];
  }

  /** `aes_oracle::new`. */
  method New(fixedMode: Option<Mode>, fixedSuffix: Option<Bytes>, rng: Draws) returns (o: AesOracle)
    requires rng.Valid()
    ensures o.Valid()
    ensures o.key == rng.keyBytes[..16]
    ensures fixedMode.Some? ==> o.mode == fixedMode.value
    ensures fixedMode.None? ==> o.mode == (if rng.modeChoice == 0 then ECB else CBC)
    ensures o.mode == CBC ==> o.iv == Some(rng.ivBytes[..16])
    ensures fixedSuffix.Some? ==> o.suffix == fixedSuffix && o.prefix == None
    ensures fixedSuffix.None? ==>
      && o.suffix == Some(rng.suffixBytes[..rng.suffixLen])
      && o.prefix == Some(rng.prefixBytes[..rng.prefixLen])
      && 5 <= |o.suffix.value| <= 9 && 5 <= |o.prefix.value| <= 9
  {
    var key := FillBytes(rng.keyBytes, 16);
    var mode: Mode;
    if fixedMode.None? {
      mode := if rng.modeChoice == 0 then ECB else CBC;
    } else {
      mode := fixedMode.value;
    }
    var iv: Option<Bytes>;
    match mode {
      case ECB => iv := None;
      case CBC =>
        var v := FillBytes(rng.ivBytes, 16);
        iv := Some(v);
    }
    var suffix: Option<Bytes>;
    var prefix: Option<Bytes>;
    match fixedSuffix {
      case None =>
        var s := FillBytes(rng.suffixBytes, rng.suffixLen);
        suffix := Some(s);
        var p := FillBytes(rng.prefixBytes, rng.prefixLen);
        prefix := Some(p);
      case Some(given) =>
        suffix := Some(given);
        prefix := None;
    }
    o := AesOracle(mode, key, iv, suffix, prefix);
  }

  /** `OracleChallenge14`: an AES oracle in ECB mode with a random prefix. */
  datatype OracleChallenge14 = OracleChallenge14(aesOracle: AesOracle)
  {
    /** `Oracle::encrypt`, delegated unchanged. */
    method Encrypt(aes: Aes, data: Bytes) returns (r: Result<Bytes>)
      ensures r == aesOracle.Cipher(aes, data)
    {
      r := aesOracle.Encrypt(aes, data);
    }
  }

  /** `OracleChallenge14::new`. The suffix, base64-decoded in the source, is a
      parameter; the prefix length is `gen_range(5..25)`. */
  method NewChallenge14(keyBytes: Bytes, suffix: Bytes, prefixLen: nat, prefixBytes: Bytes)
    returns (c: OracleChallenge14)
    requires |keyBytes| >= 16 && 5 <= prefixLen < 25 && |prefixBytes| >= prefixLen
    ensures c.aesOracle.Valid()
    ensures c.aesOracle.mode == ECB && c.aesOracle.iv == None
    ensures c.aesOracle.key == keyBytes[..16]
    ensures c.aesOracle.suffix == Some(suffix)
    ensures c.aesOracle.prefix == Some(prefixBytes[..prefixLen])
    ensures 5 <= |c.aesOracle.PrefixBytes()| <= 24
  {
    var key := FillBytes(keyBytes, 16);
    var prefix := FillBytes(prefixBytes, prefixLen);
    c := OracleChallenge14(AesOracle(ECB, key, None, Some(suffix), Some(prefix)));
  }

  // ---------------------------------------------------------------------------
  // The oracle in ECB mode is the padded ECB model

  /** The AES block function under one key. */
  function KeyedBlock(block: (Bytes, Bytes) -> Bytes, key: Bytes): Bytes -> Bytes {
    b => block(key, b)
  }

  /** ECB encryption of p under key is the padded ECB model of the keyed block function. */
  ghost predicate EcbAt(aes: Aes, block: (Bytes, Bytes) -> Bytes, key: Bytes, p: Bytes) {
    aes.ecb(p, key) == EcbEncrypt(KeyedBlock(block, key), 16, p)
  }

  ghost predicate KeyedAes(aes: Aes, block: (Bytes, Bytes) -> Bytes, key: Bytes) {
    IsBlockCipher(KeyedBlock(block, key), 16) && forall p :: EcbAt(aes, block, key, p)
  }

  /** The assumption about the `aes` crate: under every 16-byte key, ECB encryption
      pads as in PKCS#7 and enciphers each 16-byte block with a permutation. */
  ghost predicate IsAesEcb(aes: Aes, block: (Bytes, Bytes) -> Bytes) {
    forall key :: |key| == 16 ==> KeyedAes(aes, block, key)
  }

  /** A valid oracle in ECB mode is an ECB oracle with its own prefix and suffix. */
  lemma EcbOracleModel(o: AesOracle, aes: Aes, block: (Bytes, Bytes) -> Bytes)
    requires o.Valid() && o.mode == ECB && IsAesEcb(aes, block)
    ensures IsEcbOracle(o.AsOracle(aes), KeyedBlock(block, o.key), 16, o.PrefixBytes(), o.SuffixBytes())
  {
    assert KeyedAes(aes, block, o.key);
    forall d
      ensures Encrypts(o.AsOracle(aes), KeyedBlock(block, o.key), 16, o.PrefixBytes(), o.SuffixBytes(), d)
    {
      assert EcbAt(aes, block, o.key, o.PrefixBytes() + d + o.SuffixBytes());
    }
  }

  /** An oracle `new` builds in ECB mode is named ECB by `detect_encryption_mode`,
      whatever prefix it drew. */
  lemma ModeDetectedOnAesEcb(o: AesOracle, aes: Aes, block: (Bytes, Bytes) -> Bytes)
    requires o.Valid() && o.mode == ECB && IsAesEcb(aes, block)
    ensures DetectEncryptionMode(o.AsOracle(aes)) == ECB
  {
    EcbOracleModel(o, aes, block);
    EncryptionModeOnEcb(o.AsOracle(aes), KeyedBlock(block, o.key), o.PrefixBytes(), o.SuffixBytes());
  }

  /** Against the challenge-14 oracle, `detect_prefix_len` finds the prefix. */
  lemma Challenge14PrefixLen(c: OracleChallenge14, aes: Aes, block: (Bytes, Bytes) -> Bytes)
    requires c.aesOracle.Valid() && c.aesOracle.mode == ECB && IsAesEcb(aes, block)
    ensures LengthChangesWithin(c.aesOracle.AsOracle(aes), 16)
    ensures PrefixLenOf(c.aesOracle.AsOracle(aes), 16) == Success(|c.aesOracle.PrefixBytes()|)
  {
    var o := c.aesOracle;
    EcbOracleModel(o, aes, block);
    PrefixLenOnEcb(o.AsOracle(aes), KeyedBlock(block, o.key), 16, o.PrefixBytes(), o.SuffixBytes());
  }

  /** Against the challenge-14 oracle, `detect_suffix_len` finds prefix and suffix together. */
  lemma Challenge14SuffixLen(c: OracleChallenge14, aes: Aes, block: (Bytes, Bytes) -> Bytes)
    requires c.aesOracle.Valid() && c.aesOracle.mode == ECB && IsAesEcb(aes, block)
    ensures LengthChangesWithin(c.aesOracle.AsOracle(aes), 16)
    ensures SuffixLenOf(c.aesOracle.AsOracle(aes), 16)
         == Success(|c.aesOracle.PrefixBytes()| + |c.aesOracle.SuffixBytes()|)
  {
    var o := c.aesOracle;
    EcbOracleModel(o, aes, block);
    SuffixLenOnEcb(o.AsOracle(aes), KeyedBlock(block, o.key), 16, o.PrefixBytes(), o.SuffixBytes());
  }

  /** The byte-at-a-time attack end to end: an oracle built by `new` in ECB mode
      around a fixed suffix gives that suffix back to `recover_ecb_suffix`. */
  method RecoverFixedSuffix(aes: Aes, ghost block: (Bytes, Bytes) -> Bytes, suffix: Bytes, rng: Draws)
    returns (r: Result<Bytes>)
    requires rng.Valid() && IsAesEcb(aes, block)
    ensures r == Success(suffix)
  {
    var o := New(Some(ECB), Some(suffix), rng);
    EcbOracleModel(o, aes, block);
    assert o.PrefixBytes() == [];
    BlocksizeOnEcb(o.AsOracle(aes), KeyedBlock(block, o.key), 16, [], suffix);
    RecoverOnEcb(o.AsOracle(aes), KeyedBlock(block, o.key), 16, suffix);
    r := RecoverEcbSuffix(o.AsOracle(aes), 16);
  }
}
