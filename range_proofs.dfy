/** Aggregated 64-bit range proofs (transaction/core/src/range_proofs/mod.rs).

    The bulletproofs library, the Ristretto group and the Merlin transcript are
    foreign code: their values are opaque types and the two library entry
    points this module calls are a pair of function values, `Bulletproofs`.
    What is modelled is the padding of every batch to a power-of-two length
    and the way the two wrappers hand the padded vectors to the library. */
module RangeProofs {
  import opened Wrappers
  import opened Numeric
  import opened Sequences

  /** curve25519 `Scalar`, a Ristretto point in compressed form, a proof, an
      error of the library, and the state of the caller's random generator. */
  type Scalar(==, !new)
  type CompressedRistretto(==, !new)
  type RangeProof(==, !new)
  type ProofError(==, !new)
  type Rng(!new)

  /** A transaction output's serial number (`Blinding`), a wrapper of a scalar. */
  datatype Blinding = Blinding(scalar: Scalar)

  /** The module's `Error`: padding overflow, or an error of the library. */
  datatype Error = ResizeError | RangeProofError(cause: ProofError)

  /** `b"range_proof"`, the label every transcript starts with (line 15). */
  const DOMAIN_SEPARATOR_LABEL: seq<u8> :=
    [0x72, 0x61, 0x6e, 0x67, 0x65, 0x5f, 0x70, 0x72, 0x6f, 0x6f, 0x66]

  /** The bit width of every proof: values lie in [0, 2^64). */
  const RANGE_PROOF_BITS: nat := 64

  /** `RangeProof::prove_multiple_with_rng` and `verify_multiple_with_rng`,
      each applied to a fresh transcript with the given label; the fixed
      generator tables are left implicit. */
  datatype Bulletproofs = Bulletproofs(
    proveMultiple: (seq<u8>, seq<u64>, seq<Scalar>, nat, Rng)
      -> Result<(RangeProof, seq<CompressedRistretto>), ProofError>,
    verifyMultiple: (RangeProof, seq<u8>, seq<CompressedRistretto>, nat, Rng)
      -> Outcome<ProofError>)

  function Min(a: int, b: int): int {
    if a <= b then a else b
  }

  /** The vector `resize_slice_to_pow2` returns: the slice followed by copies of
      its last element up to the next power of two, or `ResizeError` when that
      power of two does not fit in `usize`. On an empty slice the source
      panics (`slice.len() - 1` underflows), so that input is excluded. */
  function PaddedToPow2<T>(s: seq<T>): (r: Result<seq<T>, Error>)
    requires |s| >= 1
    ensures r.Ok? <==> |s| <= USIZE_TOP_POWER
    ensures r.Err? ==> r.error == ResizeError
    ensures r.Ok? ==> |r.value| == NextPowerOfTwo(|s|) && IsPowerOfTwo(|r.value|)
    ensures r.Ok? ==> forall q :: IsPowerOfTwo(q) && |s| <= q ==> |r.value| <= q
    ensures r.Ok? ==> r.value[..|s|] == s
    ensures r.Ok? ==> forall i :: |s| <= i < |r.value| ==> r.value[i] == s[|s| - 1]
  {
    match CheckedNextPowerOfTwo(|s|)
    case None => Err(ResizeError)
    case Some(p) => Ok(s + seq(p - |s|, _ => s[|s| - 1]))
  }

  /** `resize_slice_to_pow2` (lines 86-98): a buffer of the next power of two's
      capacity, filled with the slice (`extend_from_slice`) and then with
      copies of the last element (`resize`). */
  method ResizeSliceToPow2<T>(slice: seq<T>) returns (r: Result<seq<T>, Error>)
    requires |slice| >= 1
    ensures r == PaddedToPow2(slice)
  {
    var len := |slice|;
    var next := CheckedNextPowerOfTwo(len);
    if next.None? {
      return Err(ResizeError);
    }
    var nextPowerOfTwo := next.value;
    var diff := nextPowerOfTwo - len;
    var buffer := new T[nextPowerOfTwo](_ => slice[0]);
    var i := 0;
    while i < len
      invariant 0 <= i <= len
      invariant buffer[..i] == slice[..i]
    {
      buffer[i] := slice[i];
      i := i + 1;
    }
    var last := slice[len - 1];
    while i < len + diff
      invariant len <= i <= len + diff
      invariant buffer[..len] == slice
      invariant forall j :: len <= j < i ==> buffer[j] == last
    {
      buffer[i] := last;
      i := i + 1;
    }
    r := Ok(buffer[..]);
    assert buffer[..] == slice + seq(diff, _ => last);
  }

  /** A slice whose length is already a power of two (and so, being a slice,
      at most `usize::MAX`) is returned unchanged (`diff == 0`). */
  lemma PowerOfTwoIsUnchanged<T>(s: seq<T>)
    requires |s| >= 1 && IsPowerOfTwo(|s|) && |s| <= USIZE_MAX
    ensures PaddedToPow2(s) == Ok(s)
  {
    NextPowerOfTwoOfPowerOfTwo(|s|);
    NextPowerOfTwoFits(|s|);
    var p := PaddedToPow2(s).value;
    assert p == p[..|s|];
  }

  /** Padding is idempotent: padding a padded vector changes nothing. */
  lemma PaddingIsIdempotent<T>(s: seq<T>)
    requires |s| >= 1 && PaddedToPow2(s).Ok?
    ensures PaddedToPow2(PaddedToPow2(s).value) == PaddedToPow2(s)
  {
    var p := PaddedToPow2(s).value;
    NextPowerOfTwoFits(|s|);
    PowerOfTwoIsUnchanged(p);
  }

  /** Entry `i` of a padded vector is entry `min(i, len - 1)` of the input. */
  lemma PaddedEntry<T>(s: seq<T>, i: nat)
    requires |s| >= 1 && PaddedToPow2(s).Ok? && i < |PaddedToPow2(s).value|
    ensures PaddedToPow2(s).value[i] == s[Min(i, |s| - 1)]
  {
    var p := PaddedToPow2(s).value;
    if i < |s| {
      assert p[..|s|][i] == p[i];
    }
  }

  /** Lines 35-37: the values and the serial numbers, each padded with its own
      last element, and the padded serial numbers' scalars (line 37). */
  function PaddedInputs(values: seq<u64>, serials: seq<Blinding>): (r: Result<(seq<u64>, seq<Scalar>), Error>)
    requires |values| >= 1 && |serials| >= 1
    ensures r.Ok? <==> |values| <= USIZE_TOP_POWER && |serials| <= USIZE_TOP_POWER
    ensures r.Err? ==> r.error == ResizeError
    ensures r.Ok? ==> |r.value.0| == NextPowerOfTwo(|values|) && |r.value.1| == NextPowerOfTwo(|serials|)
  {
    var valuesPadded :- PaddedToPow2(values);
    var serialsPadded :- PaddedToPow2(serials);
    Ok((valuesPadded, MapSeq((b: Blinding) => b.scalar, serialsPadded)))
  }

  /** When there are as many serial numbers as values, the padded vectors stay
      aligned: both have the next power of two's length, and pair `i` is the
      input pair `min(i, n - 1)`, so every padding value keeps its own blinding. */
  lemma {:induction false} PaddedInputsStayPaired(values: seq<u64>, serials: seq<Blinding>)
    requires |values| == |serials| >= 1 && |values| <= USIZE_TOP_POWER
    ensures PaddedInputs(values, serials).Ok?
    ensures var (vs, bs) := PaddedInputs(values, serials).value;
      && |vs| == |bs| == NextPowerOfTwo(|values|)
      && forall i :: 0 <= i < |vs| ==>
           vs[i] == values[Min(i, |values| - 1)] && bs[i] == serials[Min(i, |values| - 1)].scalar
  {
    var (vs, bs) := PaddedInputs(values, serials).value;
    forall i | 0 <= i < |vs|
      ensures vs[i] == values[Min(i, |values| - 1)] && bs[i] == serials[Min(i, |values| - 1)].scalar
    {
      PaddedEntry(values, i);
      PaddedEntry(serials, i);
    }
  }

  /** A library error, wrapped as `Error::RangeProofError` (`map_err`). */
  function LiftError<T>(r: Result<T, ProofError>): Result<T, Error> {
    match r
    case Ok(v) => Ok(v)
    case Err(e) => Err(RangeProofError(e))
  }

  /** `generate_range_proofs` (lines 25-50). */
  function GenerateRangeProofs(lib: Bulletproofs, values: seq<u64>, serials: seq<Blinding>, rng: Rng)
    : Result<(RangeProof, seq<CompressedRistretto>), Error>
    requires |values| >= 1 && |serials| >= 1
  {
    var (valuesPadded, blindings) :- PaddedInputs(values, serials);
    LiftError(lib.proveMultiple(DOMAIN_SEPARATOR_LABEL, valuesPadded, blindings, RANGE_PROOF_BITS, rng))
  }

  /** A library rejection, wrapped as `Error::RangeProofError` (`map_err`). */
  function LiftFailure(r: Outcome<ProofError>): Outcome<Error> {
    match r
    case Pass => Pass
    case Fail(e) => Fail(RangeProofError(e))
  }

  /** `check_range_proofs` (lines 60-77). */
  function CheckRangeProofs(lib: Bulletproofs, proof: RangeProof, commitments: seq<CompressedRistretto>, rng: Rng)
    : (r: Outcome<Error>)
    requires |commitments| >= 1
    ensures |commitments| > USIZE_TOP_POWER ==> r == Fail(ResizeError)
  {
    match PaddedToPow2(commitments)
    case Err(e) => Fail(e)
    case Ok(resized) =>
      LiftFailure(lib.verifyMultiple(proof, DOMAIN_SEPARATOR_LABEL, resized, RANGE_PROOF_BITS, rng))
  }

  /** What generation asks of the library, in closed form: for `n` values with
      `n` serial numbers, the library proves, under the domain-separation
      label and for 64 bits, the `NextPowerOfTwo(n)` pairs whose pair `i` is
      input pair `min(i, n - 1)`; a batch too long to pad is a `ResizeError`
      and a library error is passed on. */
  lemma GenerateProvesAlignedPairs(lib: Bulletproofs, values: seq<u64>, serials: seq<Blinding>, rng: Rng)
    requires |values| == |serials| >= 1
    ensures |values| > USIZE_TOP_POWER ==> GenerateRangeProofs(lib, values, serials, rng) == Err(ResizeError)
    ensures |values| <= USIZE_TOP_POWER ==>
      var n := |values|;
      var vs := seq(NextPowerOfTwo(n), i requires 0 <= i => values[Min(i, n - 1)]);
      var bs := seq(NextPowerOfTwo(n), i requires 0 <= i => serials[Min(i, n - 1)].scalar);
      GenerateRangeProofs(lib, values, serials, rng)
        == LiftError(lib.proveMultiple(DOMAIN_SEPARATOR_LABEL, vs, bs, RANGE_PROOF_BITS, rng))
  {
    if |values| <= USIZE_TOP_POWER {
      var n := |values|;
      PaddedInputsStayPaired(values, serials);
      var (pv, pb) := PaddedInputs(values, serials).value;
      assert pv == seq(NextPowerOfTwo(n), i requires 0 <= i => values[Min(i, n - 1)]);
      assert pb == seq(NextPowerOfTwo(n), i requires 0 <= i => serials[Min(i, n - 1)].scalar);
    }
  }

  /** Verification re-pads the commitments it is given; a power-of-two list is
      passed to the library as it is, under the same label and bit width as
      generation uses. */
  lemma CheckVerifiesGivenPowerOfTwoList(lib: Bulletproofs, proof: RangeProof, commitments: seq<CompressedRistretto>, rng: Rng)
    requires |commitments| >= 1 && IsPowerOfTwo(|commitments|) && |commitments| <= USIZE_MAX
    ensures CheckRangeProofs(lib, proof, commitments, rng)
      == LiftFailure(lib.verifyMultiple(proof, DOMAIN_SEPARATOR_LABEL, commitments, RANGE_PROOF_BITS, rng))
  {
    PowerOfTwoIsUnchanged(commitments);
  }

  /** What verification asks of the library, in closed form: for `n` commitments
      with `n` at most 2^63, the library checks the proof against the
      `NextPowerOfTwo(n)` commitments whose entry `i` is input commitment
      `min(i, n - 1)`, under the domain-separation label and for 64 bits, and a
      rejection is passed on. */
  lemma CheckVerifiesPaddedCommitments(lib: Bulletproofs, proof: RangeProof, commitments: seq<CompressedRistretto>, rng: Rng)
    requires 1 <= |commitments| <= USIZE_TOP_POWER
    ensures var n := |commitments|;
      var cs := seq(NextPowerOfTwo(n), i requires 0 <= i => commitments[Min(i, n - 1)]);
      CheckRangeProofs(lib, proof, commitments, rng)
        == LiftFailure(lib.verifyMultiple(proof, DOMAIN_SEPARATOR_LABEL, cs, RANGE_PROOF_BITS, rng))
  {
    var n := |commitments|;
    var p := PaddedToPow2(commitments).value;
    forall i | 0 <= i < |p|
      ensures p[i] == commitments[Min(i, n - 1)]
    {
      PaddedEntry(commitments, i);
    }
    assert p == seq(NextPowerOfTwo(n), i requires 0 <= i => commitments[Min(i, n - 1)]);
  }

  /** The library returns one commitment per value it proves. */
  ghost predicate CommitsToEachValue(lib: Bulletproofs) {
    forall tag, vs, bs, bits, rng ::
      lib.proveMultiple(tag, vs, bs, bits, rng).Ok? ==>
        |lib.proveMultiple(tag, vs, bs, bits, rng).value.1| == |vs|
  }

  /** The library accepts its own proofs: verifying a proof against the
      commitments produced with it, under the same label and bit width,
      succeeds whatever the randomness. */
  ghost predicate AcceptsOwnProofs(lib: Bulletproofs) {
    forall tag, vs, bs, bits, rng, rng' ::
      lib.proveMultiple(tag, vs, bs, bits, rng).Ok? ==>
        lib.verifyMultiple(lib.proveMultiple(tag, vs, bs, bits, rng).value.0, tag,
                           lib.proveMultiple(tag, vs, bs, bits, rng).value.1, bits, rng').Pass?
  }

  /** Verification of generation's output (lines 43-46 and 66-73): when the
      library returns one commitment per value, generation's commitments have
      the padded length, a power of two, so the verifier hands the library
      exactly the proof and commitments the prover produced, under the same
      label and bit width. */
  lemma CheckSeesGeneratedCommitments(lib: Bulletproofs, values: seq<u64>, serials: seq<Blinding>, rng: Rng, rng': Rng)
    requires CommitsToEachValue(lib)
    requires |values| >= 1 && |serials| >= 1
    requires GenerateRangeProofs(lib, values, serials, rng).Ok?
    ensures var (proof, commitments) := GenerateRangeProofs(lib, values, serials, rng).value;
      && |commitments| == NextPowerOfTwo(|values|)
      && CheckRangeProofs(lib, proof, commitments, rng')
           == LiftFailure(lib.verifyMultiple(proof, DOMAIN_SEPARATOR_LABEL, commitments, RANGE_PROOF_BITS, rng'))
  {
    var (vs, bs) := PaddedInputs(values, serials).value;
    var (proof, commitments) := GenerateRangeProofs(lib, values, serials, rng).value;
    assert lib.proveMultiple(DOMAIN_SEPARATOR_LABEL, vs, bs, RANGE_PROOF_BITS, rng) == Ok((proof, commitments));
    assert |commitments| == |vs|;
    NextPowerOfTwoFits(|values|);
    CheckVerifiesGivenPowerOfTwoList(lib, proof, commitments, rng');
  }

  /** Generation followed by verification (the test at lines 107-116): by
      `CheckSeesGeneratedCommitments` the verifier hands the library the
      prover's own output, so a library that accepts its own proofs makes the
      check succeed. */
  lemma GenerateThenCheck(lib: Bulletproofs, values: seq<u64>, serials: seq<Blinding>, rng: Rng, rng': Rng)
    requires CommitsToEachValue(lib) && AcceptsOwnProofs(lib)
    requires |values| >= 1 && |serials| >= 1
    requires GenerateRangeProofs(lib, values, serials, rng).Ok?
    ensures var (proof, commitments) := GenerateRangeProofs(lib, values, serials, rng).value;
      |commitments| >= 1 && CheckRangeProofs(lib, proof, commitments, rng') == Pass
  {
    var (vs, bs) := PaddedInputs(values, serials).value;
    CheckSeesGeneratedCommitments(lib, values, serials, rng, rng');
    assert lib.verifyMultiple(lib.proveMultiple(DOMAIN_SEPARATOR_LABEL, vs, bs, RANGE_PROOF_BITS, rng).value.0,
                              DOMAIN_SEPARATOR_LABEL,
                              lib.proveMultiple(DOMAIN_SEPARATOR_LABEL, vs, bs, RANGE_PROOF_BITS, rng).value.1,
                              RANGE_PROOF_BITS, rng').Pass?;
  }
}
