/** `program/src/main.rs`: the guest program run inside the SP1 zkVM. It
    reads a claimed previous-block hash and a serialised header, and commits
    one public boolean saying whether the header's previous-hash field equals
    the claim. The zkVM's input and commit calls become the `stdin` parameter
    and the `Execution` result. */
module ZkProgram {
  import opened Bytes

  /** The previous-block hash occupies bytes [4, 36) of a serialised header. */
  const PrevHashStart: nat := 4
  const PrevHashEnd: nat := 36

  /** The committed value `hash_is_valid`. The double SHA-256 digest of the
      header is computed, as in the source, but does not reach the result. */
  function HashIsValid(sha: Hasher, prevHashInput: seq<bv8>, headerBytes: seq<bv8>): (hashIsValid: bool)
    requires |headerBytes| >= PrevHashEnd
    ensures hashIsValid <==>
      |prevHashInput| == 32 && forall i :: 0 <= i < 32 ==> prevHashInput[i] == headerBytes[PrevHashStart + i]
  {
    var prevHash := headerBytes[PrevHashStart..PrevHashEnd];
    var digest := sha(headerBytes);
    var digestDigest := sha(digest);
    prevHash == prevHashInput
  }

  /** How one run of the guest ends: it panics, or it commits its public values. */
  datatype Execution = Panicked | Committed(publicValues: seq<bool>)

  /** One run of `main` on the zkVM input stream `stdin`: the first item is
      `prev_hash_input`, the second `header_bytes`. Running out of input or a
      header shorter than 36 bytes makes the guest panic. */
  function Run(sha: Hasher, stdin: seq<seq<bv8>>): (e: Execution)
    ensures e.Committed? <==> |stdin| >= 2 && |stdin[1]| >= PrevHashEnd
    ensures e.Committed? ==> |e.publicValues| == 1
    ensures e.Committed? ==> (e.publicValues[0] <==> stdin[1][PrevHashStart..PrevHashEnd] == stdin[0])
  {
    if |stdin| < 2 then Panicked
    else if |stdin[1]| < PrevHashEnd then Panicked
    else Committed([HashIsValid(sha, stdin[0], stdin[1])])
  }

  /** A claimed hash that is not 32 bytes long is never accepted. */
  lemma WrongLengthNeverValid(sha: Hasher, prevHashInput: seq<bv8>, headerBytes: seq<bv8>)
    requires |headerBytes| >= PrevHashEnd && |prevHashInput| != 32
    ensures !HashIsValid(sha, prevHashInput, headerBytes)
  {
  }

  /** Only bytes [4, 36) of the header matter: two headers that agree there
      give the same result, whatever their other bytes. */
  lemma OnlyPrevHashBytesMatter(sha: Hasher, prevHashInput: seq<bv8>, a: seq<bv8>, b: seq<bv8>)
    requires |a| >= PrevHashEnd && |b| >= PrevHashEnd
    requires forall i :: PrevHashStart <= i < PrevHashEnd ==> a[i] == b[i]
    ensures HashIsValid(sha, prevHashInput, a) == HashIsValid(sha, prevHashInput, b)
  {
  }

  /** Starting from an accepted pair, changing any one byte of the
      previous-hash field makes the header rejected. */
  lemma ChangedPrevHashByteRejected(sha: Hasher, prevHashInput: seq<bv8>, headerBytes: seq<bv8>, i: nat, x: bv8)
    requires |headerBytes| >= PrevHashEnd && HashIsValid(sha, prevHashInput, headerBytes)
    requires PrevHashStart <= i < PrevHashEnd && x != headerBytes[i]
    ensures !HashIsValid(sha, prevHashInput, headerBytes[i := x])
  {
    assert prevHashInput[i - PrevHashStart] == headerBytes[i];
  }

  /** The hash function, and so the computed digest, has no influence on the
      committed value. */
  lemma DigestDoesNotMatter(sha1: Hasher, sha2: Hasher, prevHashInput: seq<bv8>, headerBytes: seq<bv8>)
    requires |headerBytes| >= PrevHashEnd
    ensures HashIsValid(sha1, prevHashInput, headerBytes) == HashIsValid(sha2, prevHashInput, headerBytes)
  {
  }
}
