/** Conversions between mobilecoind's records and their `mobilecoind_api`
    messages (mobilecoind/src/conversions.rs), and the checks the proposal
    decoder makes on a proposal that arrives from outside.

    The leaf conversions (outputs, key images, public addresses, transactions)
    belong to the API crate; they are a `LeafConversions` parameter, and what
    the model assumes of them is a `requires` on the lemmas that need it. */
module Conversions {
  import opened Wrappers
  import opened Numeric
  import opened Transaction
  import opened MobilecoindApi
  import opened Payments
  import opened Sequences

  // ----- Lists: `iter().map(..).collect()` -----

  /** `collect::<Result<Vec<_>, _>>()` over decoded elements: the decoded list
      when every element decodes, the first error otherwise. */
  function DecodeAll<W, T>(f: W -> Result<T, ConversionError>, ws: seq<W>): (r: Result<seq<T>, ConversionError>)
    ensures r.Ok? <==> forall i :: 0 <= i < |ws| ==> f(ws[i]).Ok?
    ensures r.Ok? ==> |r.value| == |ws| && forall i :: 0 <= i < |ws| ==> f(ws[i]) == Ok(r.value[i])
    decreases |ws|
  {
    if ws == [] then
      Ok([])
    else
      var head :- f(ws[0]);
      var tail :- DecodeAll(f, ws[1..]);
      Ok([head] + tail)
  }

  /** The error `DecodeAll` returns is that of the first element that fails. */
  lemma {:induction false} DecodeAllStopsAtFirstError<W, T>(f: W -> Result<T, ConversionError>, ws: seq<W>, i: nat)
    requires i < |ws| && f(ws[i]).Err?
    requires forall j :: 0 <= j < i ==> f(ws[j]).Ok?
    ensures DecodeAll(f, ws) == Err(f(ws[i]).error)
    decreases i
  {
    if i > 0 {
      DecodeAllStopsAtFirstError(f, ws[1..], i - 1);
    }
  }

  /** Decoding an encoded list gives the list back when each element
      round-trips. */
  lemma {:induction false} DecodeAllOfMapSeq<T(!new), W>(enc: T -> W, dec: W -> Result<T, ConversionError>, xs: seq<T>)
    requires forall x: T :: dec(enc(x)) == Ok(x)
    ensures DecodeAll(dec, MapSeq(enc, xs)) == Ok(xs)
    decreases |xs|
  {
    if xs != [] {
      assert MapSeq(enc, xs)[1..] == MapSeq(enc, xs[1..]);
      DecodeAllOfMapSeq(enc, dec, xs[1..]);
      assert [xs[0]] + xs[1..] == xs;
    }
  }

  // ----- UnspentTxOut (lines 20-55) -----

  function EncodeUnspentTxOut(c: LeafConversions, src: UnspentTxOut): ApiUnspentTxOut {
    ApiUnspentTxOut(
      c.txOut.encode(src.txOut),
      src.subaddressIndex,
      c.keyImage.encode(src.keyImage),
      src.value,
      src.attemptedSpendHeight,
      src.attemptedSpendTombstone)
  }

  function DecodeUnspentTxOut(c: LeafConversions, src: ApiUnspentTxOut): Result<UnspentTxOut, ConversionError> {
    var txOut :- c.txOut.decode(src.txOut);
    var keyImage :- c.keyImage.decode(src.keyImage);
    Ok(UnspentTxOut(txOut, src.subaddressIndex, keyImage, src.value,
                    src.attemptedSpendHeight, src.attemptedSpendTombstone))
  }

  /** Every field survives encoding and decoding, given that the output and
      key image conversions round-trip. */
  lemma UnspentTxOutRoundTrip(c: LeafConversions, u: UnspentTxOut)
    requires RoundTrips(c.txOut) && RoundTrips(c.keyImage)
    ensures DecodeUnspentTxOut(c, EncodeUnspentTxOut(c, u)) == Ok(u)
  {
  }

  // ----- Outlay (lines 57-77) -----

  function EncodeOutlay(c: LeafConversions, src: Outlay): ApiOutlay {
    ApiOutlay(src.value, c.publicAddress.encode(src.receiver))
  }

  function DecodeOutlay(c: LeafConversions, src: ApiOutlay): Result<Outlay, ConversionError> {
    var receiver :- c.publicAddress.decode(src.receiver);
    Ok(Outlay(src.value, receiver))
  }

  /** An outlay survives encoding and decoding, given that the public address
      conversion round-trips. */
  lemma OutlayRoundTrip(c: LeafConversions, o: Outlay)
    requires RoundTrips(c.publicAddress)
    ensures DecodeOutlay(c, EncodeOutlay(c, o)) == Ok(o)
  {
  }

  // ----- TxProposal (lines 79-147) -----

  /** The loop at lines 134-138: every outlay index is below the number of
      outlays and every output index below the number of outputs. */
  predicate IndicesInBounds(m: map<usize, usize>, outlayCount: nat, outputCount: nat) {
    forall k :: k in m ==> (k as int) < outlayCount && (m[k] as int) < outputCount
  }

  /** The size check at line 130 together with the bounds of lines 134-138. */
  predicate ValidIndexMap(m: map<usize, usize>, outlayCount: nat, outputCount: nat) {
    |m| == outlayCount && IndicesInBounds(m, outlayCount, outputCount)
  }

  /** A set of indices below `n` has at most `n` elements. */
  lemma {:induction false} BoundedIndexSet(a: set<usize>, n: nat)
    requires forall k :: k in a ==> (k as int) < n
    ensures |a| <= n
    decreases n
  {
    if n == 0 {
      assert forall k :: k !in a;
      assert a == {};
    } else if n > USIZE_MAX + 1 {
      BoundedIndexSet(a, USIZE_MAX + 1);
    } else {
      var top := (n - 1) as usize;
      BoundedIndexSet(a - {top}, n - 1);
    }
  }

  /** A valid map has an entry for every outlay: its keys are exactly
      `0 .. outlayCount - 1`, and the outlay count is at most 2^64. */
  lemma EveryOutlayIsMapped(m: map<usize, usize>, outlayCount: nat, outputCount: nat)
    requires ValidIndexMap(m, outlayCount, outputCount)
    ensures outlayCount <= USIZE_MAX + 1
    ensures forall k: usize :: (k as int) < outlayCount <==> k in m
  {
    BoundedIndexSet(m.Keys, USIZE_MAX + 1);
    forall k: usize | (k as int) < outlayCount
      ensures k in m
    {
      if k !in m {
        BoundedIndexSet(m.Keys + {k}, outlayCount);
        assert false;
      }
    }
  }

  /** The for loop at lines 134-138, visiting the entries in an order the
      model leaves open (a `HashMap`'s), stopping at the first bad entry. */
  method CheckIndexBounds(m: map<usize, usize>, outlayCount: nat, outputCount: nat)
    returns (r: Outcome<ConversionError>)
    ensures r.Pass? <==> IndicesInBounds(m, outlayCount, outputCount)
    ensures r.Fail? ==> r.error == IndexOutOfBounds
  {
    var unvisited := m.Keys;
    while unvisited != {}
      invariant unvisited <= m.Keys
      invariant forall k :: k in m.Keys - unvisited ==> (k as int) < outlayCount && (m[k] as int) < outputCount
      decreases unvisited
    {
      var outlayIndex :| outlayIndex in unvisited;
      var txOutIndex := m[outlayIndex];
      if (outlayIndex as int) >= outlayCount || (txOutIndex as int) >= outputCount {
        return Fail(IndexOutOfBounds);
      }
      unvisited := unvisited - {outlayIndex};
    }
    return Pass;
  }

  function EncodeTxProposal(c: LeafConversions, src: TxProposal): ApiTxProposal {
    ApiTxProposal(
      MapSeq(u => EncodeUnspentTxOut(c, u), src.utxos),
      MapSeq(o => EncodeOutlay(c, o), src.outlays),
      c.tx.encode(src.tx),
      src.tx.prefix.fee,
      src.outlayIndexToTxOutIndex)
  }

  predicate InputsDecode(c: LeafConversions, src: ApiTxProposal) {
    forall i :: 0 <= i < |src.inputList| ==> DecodeUnspentTxOut(c, src.inputList[i]).Ok?
  }

  predicate OutlaysDecode(c: LeafConversions, src: ApiTxProposal) {
    forall i :: 0 <= i < |src.outlayList| ==> DecodeOutlay(c, src.outlayList[i]).Ok?
  }

  /** `TryFrom<&mobilecoind_api::TxProposal>` (lines 101-147): the fee check,
      then the inputs, the outlays and the transaction in that order (first
      error wins), then the index map's size and bounds. */
  function DecodeTxProposal(c: LeafConversions, src: ApiTxProposal): (r: Result<TxProposal, ConversionError>)
    ensures src.fee != src.tx.prefix.fee ==> r == Err(FeeMismatch)
    ensures r.Ok? <==>
      && src.fee == src.tx.prefix.fee
      && InputsDecode(c, src)
      && OutlaysDecode(c, src)
      && c.tx.decode(src.tx).Ok?
      && ValidIndexMap(src.outlayIndexToTxOutIndex, |src.outlayList|, |c.tx.decode(src.tx).value.prefix.outputs|)
    ensures r.Ok? ==>
      && |r.value.utxos| == |src.inputList|
      && (forall i :: 0 <= i < |src.inputList| ==> DecodeUnspentTxOut(c, src.inputList[i]) == Ok(r.value.utxos[i]))
      && |r.value.outlays| == |src.outlayList|
      && (forall i :: 0 <= i < |src.outlayList| ==> DecodeOutlay(c, src.outlayList[i]) == Ok(r.value.outlays[i]))
      && c.tx.decode(src.tx) == Ok(r.value.tx)
      && r.value.outlayIndexToTxOutIndex == src.outlayIndexToTxOutIndex
    ensures r.Ok? ==>
      var p := r.value;
      && (forall k: usize :: (k as int) < |p.outlays| <==> k in p.outlayIndexToTxOutIndex)
      && (forall k :: k in p.outlayIndexToTxOutIndex ==> (p.outlayIndexToTxOutIndex[k] as int) < |p.tx.prefix.outputs|)
  {
    if src.fee != src.tx.prefix.fee then
      Err(FeeMismatch)
    else
      var utxos :- DecodeAll(u => DecodeUnspentTxOut(c, u), src.inputList);
      var outlays :- DecodeAll(o => DecodeOutlay(c, o), src.outlayList);
      var tx :- c.tx.decode(src.tx);
      var outlayIndexToTxOutIndex := src.outlayIndexToTxOutIndex;
      if |outlayIndexToTxOutIndex| != |outlays| then
        Err(IndexOutOfBounds)
      else if !IndicesInBounds(outlayIndexToTxOutIndex, |outlays|, |tx.prefix.outputs|) then
        Err(IndexOutOfBounds)
      else
        EveryOutlayIsMapped(outlayIndexToTxOutIndex, |outlays|, |tx.prefix.outputs|);
        Ok(TxProposal(utxos, outlays, tx, outlayIndexToTxOutIndex))
  }

  /** The first input that fails to decode decides the error, and no proposal
      is produced (lines 109-113). */
  lemma RejectsFirstBadInput(c: LeafConversions, src: ApiTxProposal, i: nat)
    requires src.fee == src.tx.prefix.fee
    requires i < |src.inputList| && DecodeUnspentTxOut(c, src.inputList[i]).Err?
    requires forall j :: 0 <= j < i ==> DecodeUnspentTxOut(c, src.inputList[j]).Ok?
    ensures DecodeTxProposal(c, src) == Err(DecodeUnspentTxOut(c, src.inputList[i]).error)
  {
    DecodeAllStopsAtFirstError(u => DecodeUnspentTxOut(c, u), src.inputList, i);
  }

  /** Once the inputs decode, the first outlay that fails decides the error
      (lines 115-119). */
  lemma RejectsFirstBadOutlay(c: LeafConversions, src: ApiTxProposal, i: nat)
    requires src.fee == src.tx.prefix.fee && InputsDecode(c, src)
    requires i < |src.outlayList| && DecodeOutlay(c, src.outlayList[i]).Err?
    requires forall j :: 0 <= j < i ==> DecodeOutlay(c, src.outlayList[j]).Ok?
    ensures DecodeTxProposal(c, src) == Err(DecodeOutlay(c, src.outlayList[i]).error)
  {
    DecodeAllStopsAtFirstError(o => DecodeOutlay(c, o), src.outlayList, i);
  }

  /** Once the inputs and outlays decode, a transaction that fails to decode
      decides the error (line 121). */
  lemma RejectsBadTx(c: LeafConversions, src: ApiTxProposal)
    requires src.fee == src.tx.prefix.fee && InputsDecode(c, src) && OutlaysDecode(c, src)
    requires c.tx.decode(src.tx).Err?
    ensures DecodeTxProposal(c, src) == Err(c.tx.decode(src.tx).error)
  {
  }

  /** Once everything decodes, a map of the wrong size, or with an outlay
      index at or past the number of outlays, or an output index at or past
      the number of outputs, is `IndexOutOfBounds` (lines 130-138). */
  lemma RejectsBadIndexMap(c: LeafConversions, src: ApiTxProposal)
    requires src.fee == src.tx.prefix.fee && InputsDecode(c, src) && OutlaysDecode(c, src)
    requires c.tx.decode(src.tx).Ok?
    requires var m := src.outlayIndexToTxOutIndex;
      || |m| != |src.outlayList|
      || (exists k :: k in m && (k as int) >= |src.outlayList|)
      || (exists k :: k in m && (m[k] as int) >= |c.tx.decode(src.tx).value.prefix.outputs|)
    ensures DecodeTxProposal(c, src) == Err(IndexOutOfBounds)
  {
  }

  /** The decoder does not ask the map to be injective: two outlays that name
      the same output are accepted (lines 130-138 bound each value but never
      compare two of them). */
  lemma OutlaysMayShareAnOutput(c: LeafConversions, src: ApiTxProposal)
    requires src.fee == src.tx.prefix.fee && InputsDecode(c, src) && OutlaysDecode(c, src)
    requires |src.outlayList| == 2
    requires c.tx.decode(src.tx).Ok? && |c.tx.decode(src.tx).value.prefix.outputs| == 1
    requires src.outlayIndexToTxOutIndex == map[0 := 0, 1 := 0]
    ensures DecodeTxProposal(c, src).Ok?
    ensures var m := DecodeTxProposal(c, src).value.outlayIndexToTxOutIndex;
      0 in m && 1 in m && m[0] == m[1] == 0
  {
    var m := src.outlayIndexToTxOutIndex;
    assert m.Keys == {0, 1};
    assert |m| == 2;
  }

  /** The encoder sets `fee` from the transaction prefix (line 90), so, given
      `KeepsFee`, an encoded proposal passes the decoder's fee check (line 105). */
  lemma EncodedProposalPassesFeeCheck(c: LeafConversions, p: TxProposal)
    requires KeepsFee(c.tx)
    ensures var msg := EncodeTxProposal(c, p); msg.fee == msg.tx.prefix.fee
  {
  }

  /** Encoding then decoding a proposal gives it back, lists in order and map
      entries carried over unchanged, exactly when its index map is valid;
      otherwise the decoder answers `IndexOutOfBounds`. */
  lemma {:induction false} TxProposalRoundTrip(c: LeafConversions, p: TxProposal)
    requires Faithful(c)
    ensures DecodeTxProposal(c, EncodeTxProposal(c, p)) ==
      if ValidIndexMap(p.outlayIndexToTxOutIndex, |p.outlays|, |p.tx.prefix.outputs|)
      then Ok(p) else Err(IndexOutOfBounds)
  {
    var encodeUtxo := u => EncodeUnspentTxOut(c, u);
    var decodeUtxo := u => DecodeUnspentTxOut(c, u);
    var encodeOutlay := o => EncodeOutlay(c, o);
    var decodeOutlay := o => DecodeOutlay(c, o);
    forall u: UnspentTxOut ensures decodeUtxo(encodeUtxo(u)) == Ok(u) {
      UnspentTxOutRoundTrip(c, u);
    }
    forall o: Outlay ensures decodeOutlay(encodeOutlay(o)) == Ok(o) {
      OutlayRoundTrip(c, o);
    }
    DecodeAllOfMapSeq(encodeUtxo, decodeUtxo, p.utxos);
    DecodeAllOfMapSeq(encodeOutlay, decodeOutlay, p.outlays);
    EncodedProposalPassesFeeCheck(c, p);
  }
}
