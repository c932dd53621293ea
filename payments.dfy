/** The wallet's own records: an owned unspent output, an intended payment and
    a spend proposal (mobilecoind's `utxo_store` and `payments` modules). */
module Payments {
  import opened Numeric
  import opened Transaction

  datatype UnspentTxOut = UnspentTxOut(
    txOut: TxOut,
    subaddressIndex: u32,
    keyImage: KeyImage,
    value: u64,
    attemptedSpendHeight: u64,
    attemptedSpendTombstone: u64)

  datatype Outlay = Outlay(value: u64, receiver: PublicAddress)

  /** `outlayIndexToTxOutIndex` says, for each outlay, which output of `tx`
      pays it. */
  datatype TxProposal = TxProposal(
    utxos: seq<UnspentTxOut>,
    outlays: seq<Outlay>,
    tx: Tx,
    outlayIndexToTxOutIndex: map<usize, usize>)
}
