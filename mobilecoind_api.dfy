/** The wire messages of the `mobilecoind_api` crate, its `ConversionError`,
    and the conversions of the leaf types, which that crate defines and this
    model takes as parameters. */
module MobilecoindApi {
  import opened Wrappers
  import opened Numeric
  import opened Transaction

  /** The leaf messages are opaque. */
  type ApiTxOut(==, !new)
  type ApiTxIn(==, !new)
  type ApiKeyImage(==, !new)
  type ApiPublicAddress(==, !new)
  type ApiSignatureRctBulletproofs(==, !new)

  datatype ApiTxPrefix = ApiTxPrefix(inputs: seq<ApiTxIn>, outputs: seq<ApiTxOut>, fee: u64, tombstoneBlock: u64)

  datatype ApiTx = ApiTx(prefix: ApiTxPrefix, signature: ApiSignatureRctBulletproofs)

  datatype ApiUnspentTxOut = ApiUnspentTxOut(
    txOut: ApiTxOut,
    subaddressIndex: u32,
    keyImage: ApiKeyImage,
    value: u64,
    attemptedSpendHeight: u64,
    attemptedSpendTombstone: u64)

  datatype ApiOutlay = ApiOutlay(value: u64, receiver: ApiPublicAddress)

  datatype ApiTxProposal = ApiTxProposal(
    inputList: seq<ApiUnspentTxOut>,
    outlayList: seq<ApiOutlay>,
    tx: ApiTx,
    fee: u64,
    outlayIndexToTxOutIndex: map<u64, u64>)

  /** The two variants the proposal decoder raises itself; every other
      variant, raised by the leaf conversions, is `Other`. */
  type OtherConversionError(==, !new)

  datatype ConversionError = FeeMismatch | IndexOutOfBounds | Other(cause: OtherConversionError)

  /** A `From` conversion to a message and the `TryFrom` conversion back. */
  datatype Codec<!T, !W> = Codec(encode: T -> W, decode: W -> Result<T, ConversionError>)

  /** Decoding an encoded value gives the value back. */
  ghost predicate RoundTrips<T(!new), W>(c: Codec<T, W>) {
    forall x: T :: c.decode(c.encode(x)) == Ok(x)
  }

  /** The leaf conversions of the `mobilecoind_api` crate. */
  datatype LeafConversions = LeafConversions(
    txOut: Codec<TxOut, ApiTxOut>,
    keyImage: Codec<KeyImage, ApiKeyImage>,
    publicAddress: Codec<PublicAddress, ApiPublicAddress>,
    tx: Codec<Tx, ApiTx>)

  /** Encoding a transaction keeps its prefix's fee. */
  ghost predicate KeepsFee(c: Codec<Tx, ApiTx>) {
    forall tx: Tx :: c.encode(tx).prefix.fee == tx.prefix.fee
  }

  /** What the model assumes of the leaf conversions: each round-trips, and
      the transaction encoding carries the fee over. */
  ghost predicate Faithful(c: LeafConversions) {
    && RoundTrips(c.txOut)
    && RoundTrips(c.keyImage)
    && RoundTrips(c.publicAddress)
    && RoundTrips(c.tx)
    && KeepsFee(c.tx)
  }
}
