/** Byte strings, the error kinds of the toolkit and the oracle capability. */
module Common {

  type Bytes = seq<bv8>

  /** The only capability the attack engine uses: encrypt attacker-chosen bytes.
      A Dafny function value is deterministic by construction, which is what every
      probe of the engine relies on. */
  type Oracle = Bytes -> Bytes

  /** Block-cipher mode of operation. */
  datatype Mode = ECB | CBC

  /** Failure kinds. The source panics in the cases named here; the model returns them. */
  datatype Error =
    | LengthMismatch      // two byte strings that must have one length do not
    | NoDictionaryMatch   // no dictionary entry matches the target block
    | PrefixNotFound      // no ciphertext block differs between two probes
    | NoLengthChange      // the ciphertext length never changed over a probe range
    | OutOfRange          // a slice of an oracle output past its end
    | Underflow           // an unsigned subtraction below zero
    | MissingIv           // CBC encryption without an initialisation vector

  datatype Option<T> = None | Some(value: T)

  datatype Result<T> = Success(value: T) | Failure(error: Error) {
    predicate IsFailure() { Failure? }

    function PropagateFailure<U>(): Result<U>
      requires Failure?
    {
      Failure(error)
    }

    function Extract(): T
      requires Success?
    {
      value
    }
  }

  /** n copies of the byte c. */
  function Repeat(n: nat, c: bv8): (r: Bytes)
    ensures |r| == n
    ensures forall i :: 0 <= i < n ==> r[i] == c
  {
    seq(n, _ => c)
  }

  function Zeros(n: nat): Bytes { Repeat(n, 0) }

  /** The filler byte `A` (65) used by the dictionary attack. */
  const FILLER: bv8 := 65

  /** A number read back as a byte is the byte it was made from. */
  lemma ByteBack(b: bv8)
    ensures (b as int) as bv8 == b
  {
  }

  function Min(a: int, b: int): int { if a <= b then a else b }
}
