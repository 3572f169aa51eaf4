/** The older ingestion pipeline (`src/bitcoin/tx_stream.rs`), the one the
    server's insertion loop runs: only the mempool feed, and items that carry
    the txid in digest order and no height. Its error enum has the same three
    variants as the current pipeline's and is shared with it here. */
module TxStream {
  import opened Wrappers
  import opened Bytes
  import opened Consensus
  import opened Models
  import Streams

  type OldEntry = (Digest, Item)

  /** `get_tx_stream`: each raw rawtx message deserialized, up to the first
      message that fails to deserialize. */
  function DecodeRawTxs(lib: Streams.Library, raws: seq<seq<byte>>): (r: Streams.Stream<Transaction>)
    ensures |r.items| <= |raws|
    ensures forall j :: 0 <= j < |r.items| ==> lib.deserializeTx(raws[j]) == Ok(r.items[j])
    ensures r.failure.None? <==> |r.items| == |raws|
    ensures r.failure.Some? ==>
              lib.deserializeTx(raws[|r.items|]).Err? &&
              r.failure == Some(Streams.Deserialization(lib.deserializeTx(raws[|r.items|]).error))
    decreases |raws|
  {
    if raws == [] then Streams.Stream([], None)
    else match lib.deserializeTx(raws[0])
      case Err(e) => Streams.Stream([], Some(Streams.Deserialization(e)))
      case Ok(tx) =>
        var rest := DecodeRawTxs(lib, raws[1..]);
        Streams.Stream([tx] + rest.items, rest.failure)
  }

  function ExpandInputs(sha256: seq<byte> -> Digest, txId: seq<byte>, inputs: seq<TxIn>, first: nat)
    : (r: seq<OldEntry>)
    ensures |r| == |inputs|
    ensures forall i :: 0 <= i < |inputs| ==>
              r[i].0 == Streams.InputKey(sha256, inputs[i]) && r[i].1 == Item(AsU32(first + i), txId)
    decreases |inputs|
  {
    if inputs == [] then []
    else [(Streams.InputKey(sha256, inputs[0]), Item(AsU32(first), txId))]
         + ExpandInputs(sha256, txId, inputs[1..], first + 1)
  }

  /** The per-transaction closure of `get_item_stream`: one item per input,
      in input order, carrying the txid as the digest gives it. */
  function TxToItems(sha256: seq<byte> -> Digest, tx: Transaction): (r: seq<OldEntry>)
    ensures |r| == |tx.input|
    ensures forall i :: 0 <= i < |r| ==>
              && r[i].0 == Streams.InputKey(sha256, tx.input[i])
              && r[i].1.index == AsU32(i)
              && r[i].1.txId == Txid(sha256, tx)
    ensures |tx.input| <= U32_MODULUS ==> forall i :: 0 <= i < |r| ==> r[i].1.index == i
  {
    ExpandInputs(sha256, Txid(sha256, tx), tx.input, 0)
  }

  /** `get_item_stream`: the decoded feed mapped to item batches. */
  function ItemStream(lib: Streams.Library, raws: seq<seq<byte>>): (r: Streams.Stream<seq<OldEntry>>)
    ensures r.failure == DecodeRawTxs(lib, raws).failure
    ensures |r.items| == |DecodeRawTxs(lib, raws).items|
    ensures forall j :: 0 <= j < |r.items| ==>
              exists tx :: lib.deserializeTx(raws[j]) == Ok(tx) && r.items[j] == TxToItems(lib.sha256, tx)
  {
    var decoded := DecodeRawTxs(lib, raws);
    var batches := Streams.MapItems((tx: Transaction) => TxToItems(lib.sha256, tx), decoded.items);
    forall j | 0 <= j < |batches|
      ensures exists tx :: lib.deserializeTx(raws[j]) == Ok(tx) && batches[j] == TxToItems(lib.sha256, tx)
    {
      var tx := decoded.items[j];
      assert lib.deserializeTx(raws[j]) == Ok(tx) && batches[j] == TxToItems(lib.sha256, tx);
    }
    Streams.Stream(batches, decoded.failure)
  }

  /** The two pipelines derive the same keys and input indices for a
      transaction; the current one stores the txid byte-reversed where the
      older one stores it as the digest gives it, and adds the height tag. */
  lemma PipelinesAgree(sha256: seq<byte> -> Digest, height: u32, tx: Transaction)
    ensures |Streams.TxToItems(sha256, (height, tx))| == |TxToItems(sha256, tx)|
    ensures forall i :: 0 <= i < |TxToItems(sha256, tx)| ==>
              var current := Streams.TxToItems(sha256, (height, tx))[i];
              var older := TxToItems(sha256, tx)[i];
              && current.0 == older.0
              && current.1.inputIndex == older.1.index
              && current.1.txId == Reverse(older.1.txId)
              && current.1.blockHeight == height
  {
  }
}
