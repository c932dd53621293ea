# Range-proof padding and wallet proposal conversions, modelled in Dafny

This project models two pieces of a privacy-preserving ledger wallet daemon.
They sit on either side of the path a spend proposal takes.

1. **Range-proof padding** (`transaction/core/src/range_proofs/mod.rs`).
   Aggregated bulletproofs need a power-of-two batch. `resize_slice_to_pow2`
   pads a slice to the next power of two by repeating its last element. It
   fails with `ResizeError` when that power of two does not fit in a 64-bit
   `usize`. `generate_range_proofs` pads the values and serial numbers
   separately. `check_range_proofs` pads the commitments. Both hand the padded
   vectors to the bulletproofs library under the transcript label
   `b"range_proof"` with bit width 64.
2. **Proposal conversions** (`mobilecoind/src/conversions.rs`). Encoders map
   `UnspentTxOut`, `Outlay` and `TxProposal` to their `mobilecoind_api`
   messages, and decoders map them back. The `TxProposal` decoder is the gate
   for proposals from outside. It checks, in this order:
   - the declared fee equals the transaction prefix's fee;
   - every input, every outlay and the transaction decode, and the first error
     is passed on;
   - the outlay-index map has one entry per outlay;
   - every key is below the number of outlays and every value is below the
     number of outputs.

   The map need not be injective: two outlays may share an output index.

Files:

- `wrappers.dfy`: `Option`, `Result` (usable with `:-`, the counterpart of `?`)
  and `Outcome`.
- `sequences.dfy`: `MapSeq`, the counterpart of `iter().map(f).collect()`.
- `numeric.dfy`: `u8`, `u32`, `u64`, `usize` (64-bit), powers of two, and
  `usize::checked_next_power_of_two`.
- `range_proofs.dfy`: the padder, as a function and as a method that fills an
  array in two loops, and the two wrappers.
- `transaction.dfy`, `mobilecoind_api.dfy`, `payments.dfy`: the ledger types,
  the wire messages with `ConversionError`, and the wallet records.
- `conversions.dfy`: the encoders, the decoders and the index-map checks.

Foreign code is passed in as values, because the model cannot see it:

- The bulletproofs library is a `Bulletproofs` record holding two function
  values over opaque `Scalar`, `CompressedRistretto`, `RangeProof`,
  `ProofError` and `Rng` types.
- The leaf conversions of the API crate (`TxOut`, `KeyImage`, `PublicAddress`,
  `Tx`) are a `LeafConversions` record of encode/decode function pairs.

Whatever the model relies on about that code is a `requires` clause of the
lemma that uses it. `Faithful` says each leaf conversion round-trips and that
encoding a transaction keeps its fee. `CommitsToEachValue` and
`AcceptsOwnProofs` say the library returns one commitment per value and
accepts its own proofs.

The model follows the code:

- The code names the padding error `ResizeError`.
- An empty slice makes the code panic, because computing `slice.len() - 1`
  underflows. The model treats it as a precondition, not as an error result.
- The code does not check that the values and serial numbers have the same
  length. It pads them independently and leaves any mismatch to the library.
- No aggregation cap appears in these files; any cap is inside the library.

## Model

| member | source | states |
|---|---|---|
| `Numeric.CheckedNextPowerOfTwo` | transaction/core/src/range_proofs/mod.rs:88 | a result exists exactly when the length is at most 2^63; it is then the least power of two at or above the length, and at most `usize::MAX` |
| `Numeric.NextPowerOfTwoIsLeast` | transaction/core/src/range_proofs/mod.rs:88 | no power of two at or above `n` lies below the next power of two of `n` |
| `Numeric.NextPowerOfTwoOfPowerOfTwo` | transaction/core/src/range_proofs/mod.rs:88-89 | a power of two is its own next power of two, so `diff` is 0 |
| `Numeric.NextPowerOfTwoFits` | transaction/core/src/range_proofs/mod.rs:88 | the next power of two fits in a 64-bit `usize` if and only if the length is at most 2^63 |
| `RangeProofs.PaddedToPow2` | transaction/core/src/range_proofs/mod.rs:86-98 | for a non-empty slice: the result is `Ok` exactly when the next power of two fits in `usize`, and `ResizeError` otherwise; an `Ok` vector has the least power-of-two length at or above the input length, starts with the input unchanged and in order, and has the input's last element at every later index |
| `RangeProofs.ResizeSliceToPow2` | transaction/core/src/range_proofs/mod.rs:86-98 | copying the slice into a buffer of the next power of two's size and then filling the rest with the last element gives exactly `PaddedToPow2`'s result, including the `ResizeError` case |
| `RangeProofs.PowerOfTwoIsUnchanged` | transaction/core/src/range_proofs/mod.rs:88-92 | a slice whose length is already a power of two is returned unchanged |
| `RangeProofs.PaddingIsIdempotent` | transaction/core/src/range_proofs/mod.rs:88-92 | padding a padded vector gives the same vector back |
| `RangeProofs.PaddedEntry` | transaction/core/src/range_proofs/mod.rs:91-92 | entry `i` of the padded vector is input entry `min(i, len - 1)` |
| `RangeProofs.PaddedInputs` | transaction/core/src/range_proofs/mod.rs:35-37 | padding values and serial numbers succeeds exactly when neither is longer than 2^63, and otherwise fails with `ResizeError`; each padded vector has its own input's next-power-of-two length |
| `RangeProofs.PaddedInputsStayPaired` | transaction/core/src/range_proofs/mod.rs:35-37 | with `n` values and `n` serial numbers, the padded vectors have equal length, and pair `i` is input value and blinding `min(i, n - 1)`, so each padding value keeps its own blinding |
| `RangeProofs.GenerateProvesAlignedPairs` | transaction/core/src/range_proofs/mod.rs:25-50 | generation gives `ResizeError` for more than 2^63 values; otherwise, for as many serial numbers as values, it returns the library's result, with errors wrapped, for the aligned padded pairs under the label `b"range_proof"` and 64 bits |
| `RangeProofs.CheckRangeProofs` | transaction/core/src/range_proofs/mod.rs:60-77 | more than 2^63 commitments gives `ResizeError` without calling the library |
| `RangeProofs.CheckVerifiesGivenPowerOfTwoList` | transaction/core/src/range_proofs/mod.rs:66-73 | a power-of-two list of commitments reaches the library unchanged, under the same label and bit width that generation uses |
| `RangeProofs.CheckVerifiesPaddedCommitments` | transaction/core/src/range_proofs/mod.rs:60-77 | for 1 to 2^63 commitments, the library verifies the proof against the padded list whose entry `i` is commitment `min(i, n - 1)`, under the label `b"range_proof"` and 64 bits, and a rejection is wrapped as `RangeProofError` |
| `RangeProofs.CheckSeesGeneratedCommitments` | transaction/core/src/range_proofs/mod.rs:43-46 | if the library returns one commitment per value, generation's commitments number the padded length, and verifying them hands the library exactly that proof and those commitments, under the label `b"range_proof"` and 64 bits (lines 66-73) |
| `RangeProofs.GenerateThenCheck` | transaction/core/src/range_proofs/mod.rs:107-116 | if the library returns one commitment per value and accepts its own proofs, then checking the proof and commitments that generation produced succeeds for any randomness |
| `Conversions.DecodeAll` | mobilecoind/src/conversions.rs:109-119 | collecting decoded elements succeeds exactly when every element decodes; the result then has one element per message, each the decoding of the message at the same position |
| `Conversions.DecodeAllStopsAtFirstError` | mobilecoind/src/conversions.rs:109-119 | when a list fails to decode, the error is that of the first failing element |
| `Conversions.DecodeAllOfMapSeq` | mobilecoind/src/conversions.rs:83-88 | decoding an encoded list gives the list back, in order, when each element round-trips |
| `Conversions.UnspentTxOutRoundTrip` | mobilecoind/src/conversions.rs:20-55 | decoding an encoded `UnspentTxOut` gives all six fields back, given that the `TxOut` and `KeyImage` conversions round-trip |
| `Conversions.OutlayRoundTrip` | mobilecoind/src/conversions.rs:57-77 | decoding an encoded `Outlay` gives it back, given that the `PublicAddress` conversion round-trips |
| `Conversions.EveryOutlayIsMapped` | mobilecoind/src/conversions.rs:130-138 | a map that passes the size and bounds checks has exactly the keys `0 .. outlays.len() - 1`, and the outlay count is at most 2^64 |
| `Conversions.CheckIndexBounds` | mobilecoind/src/conversions.rs:134-138 | visiting the entries in any order and stopping at the first bad one passes exactly when every key is below the outlay count and every value is below the output count; otherwise it fails with `IndexOutOfBounds` |
| `Conversions.DecodeTxProposal` | mobilecoind/src/conversions.rs:101-147 | a declared fee different from the prefix fee gives `FeeMismatch`; decoding succeeds exactly when the fee matches, every input, outlay and the transaction decode, and the map is valid; a decoded proposal holds the decoded lists element by element and the map entries carried over unchanged; that map has a key for every outlay and each value is an in-range output index |
| `Conversions.RejectsFirstBadInput` | mobilecoind/src/conversions.rs:109-113 | once the fee matches, the first input that fails to decode decides the error |
| `Conversions.RejectsFirstBadOutlay` | mobilecoind/src/conversions.rs:115-119 | once the inputs decode, the first outlay that fails to decode decides the error |
| `Conversions.RejectsBadTx` | mobilecoind/src/conversions.rs:121 | once the inputs and outlays decode, a transaction that fails to decode decides the error |
| `Conversions.RejectsBadIndexMap` | mobilecoind/src/conversions.rs:129-138 | once everything decodes, a map of the wrong size, a key at or past the outlay count, or a value at or past the output count gives `IndexOutOfBounds` |
| `Conversions.OutlaysMayShareAnOutput` | mobilecoind/src/conversions.rs:129-138 | two outlays mapped to the one output of a transaction (`{0: 0, 1: 0}`) pass the size and bounds checks, so the decoder accepts a map that is not injective |
| `Conversions.EncodedProposalPassesFeeCheck` | mobilecoind/src/conversions.rs:79-107 | given that the `Tx` conversion keeps the prefix fee (`KeepsFee`), an encoded proposal's `fee` equals its encoded transaction's prefix fee, so it passes the decoder's fee check |
| `Conversions.TxProposalRoundTrip` | mobilecoind/src/conversions.rs:79-147 | under `Faithful`, decoding an encoded proposal gives it back (lists in order, map entries carried over unchanged) exactly when its index map is valid, and gives `IndexOutOfBounds` otherwise |

## Left out

- `mobilecoind/src/bin/main.rs` is not part of this model. It is process bootstrap: configuration, logging, the peer manager, ledger sync, database setup and sleep loops.
- The bulletproofs prover and verifier, Ristretto point compression, `Scalar`, the Merlin transcript and the generator tables `BP_GENERATORS` and `GENERATORS` are foreign cryptographic code. They appear only as the opaque types and function values of `Bulletproofs`. The transcript is represented by its label.
- The random generator is a plain input value (`Rng`). The model does not capture that the source advances it in place.
- Cryptographic soundness, as in `test_wrong_commitments` (wrong commitments are rejected), rests on hardness assumptions about the library and cannot be stated of this model.
- The leaf conversions for `TxOut`, `KeyImage`, `PublicAddress` and `Tx` live in the API crate, which is not part of this model. Their round-trip and fee preservation are the `Faithful` hypothesis, not proved facts.
- Every `ConversionError` variant other than `FeeMismatch` and `IndexOutOfBounds` is grouped as `Other`, with opaque contents.
- `HashMap` iteration order is left open: `CheckIndexBounds` picks the next entry arbitrarily. `RepeatedField` and protobuf allocation are not modelled.
- The `u64`/`usize` casts at conversions.rs lines 94 and 126 are identities on a 64-bit target. `usize` is a synonym for `u64`.
- Proposal assembly (choosing blindings and building the outlay-to-output map) and the UTXO leasing policy are not in these files and are not modelled.
- `RangeProofs.GenerateRangeProofs` and `RangeProofs.CheckRangeProofs` panic in the source when given an empty slice. Here a `requires` excludes that input instead of modelling the panic.
- `RangeProofs.ResizeSliceToPow2`: the `Vec`'s growth within its reserved capacity is modelled as an array allocated at the final length and then filled. The method returns that array's contents as a sequence.
- The encoders (`EncodeUnspentTxOut`, `EncodeOutlay`, `EncodeTxProposal`) and the element decoders have no contracts of their own. What they promise is stated by the round-trip lemmas.
- `RangeProofs.GenerateRangeProofs` has no contract of its own. What it computes is stated by `GenerateProvesAlignedPairs` (the closed form) `CheckSeesGeneratedCommitments` (what verification of its output hands the library) and `GenerateThenCheck` (verification accepts its output). The error wrappers `LiftError` and `LiftFailure` likewise carry no contract.
