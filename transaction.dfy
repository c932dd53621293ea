/** The ledger types of the `transaction` crate that the conversions handle.
    Public addresses, key images, outputs, inputs and signatures are opaque;
    of a transaction only its prefix's output list and fee are read. */
module Transaction {
  import opened Numeric

  type TxOut(==, !new)
  type TxIn(==, !new)
  type KeyImage(==, !new)
  type PublicAddress(==, !new)
  type SignatureRctBulletproofs(==, !new)

  datatype TxPrefix = TxPrefix(inputs: seq<TxIn>, outputs: seq<TxOut>, fee: u64, tombstoneBlock: u64)

  datatype Tx = Tx(prefix: TxPrefix, signature: SignatureRctBulletproofs)
}
