/** The current ingestion pipeline (`src/bitcoin/streams.rs`): per-input
    expansion of a height-tagged transaction into index entries, the height
    tagging of the two live feeds, and the backfill walk (`scrape`) with its
    status updates. The node, the hash function and the rust-bitcoin decoders
    are parameters; a futures stream is modelled by the items it delivers
    followed by how it ended. */
module Streams {
  import opened Wrappers
  import opened Bytes
  import opened Consensus
  import opened Models

  /** The JSON-RPC client's error, kept abstract. */
  datatype ClientError = ClientError(cause: string)

  /** The ZMQ subscription's error, kept abstract. */
  datatype SubscriptionError = SubscriptionError(cause: string)

  datatype StreamError =
    | Subscription(subscription: SubscriptionError)
    | Deserialization(decode: DecodeError)
    | Client(client: ClientError)

  /** A run of a stream: the items it delivered, then either its end
      (`failure == None`) or the error that terminated it. */
  datatype Stream<T> = Stream(items: seq<T>, failure: Option<StreamError>)

  /** The library functions the pipeline calls. */
  datatype Library = Library(
    sha256: seq<byte> -> Digest,
    deserializeTx: seq<byte> -> Result<Transaction, DecodeError>,
    decodeBlock: seq<byte> -> Result<Block, DecodeError>)

  /** The node's RPC interface, as seen at the time of the calls. */
  datatype Node = Node(
    getBlockHash: u32 -> Result<seq<byte>, ClientError>,
    getRawBlock: seq<byte> -> Result<seq<byte>, ClientError>,
    getBlockNumber: seq<byte> -> Result<u32, ClientError>,
    getChainLength: Result<u32, ClientError>)

  type Tagged = (u32, Transaction)
  type Entry = (Digest, DbItem)

  // ---------------------------------------------------------------------
  // tx_to_item_stream
  // ---------------------------------------------------------------------

  /** The index key of an input: SHA-256 of its consensus encoding. */
  function InputKey(sha256: seq<byte> -> Digest, input: TxIn): (r: Digest)
    ensures r == sha256(EncodeTxIn(Canonical(input)))
  {
    sha256(EncodeTxIn(input))
  }

  /** The `enumerate().map(..)` over the inputs, numbering from `first`. */
  function ExpandInputs(sha256: seq<byte> -> Digest, txId: seq<byte>, height: u32, inputs: seq<TxIn>, first: nat)
    : (r: seq<Entry>)
    ensures |r| == |inputs|
    ensures forall i :: 0 <= i < |inputs| ==>
              r[i].0 == InputKey(sha256, inputs[i]) && r[i].1 == DbItem(AsU32(first + i), txId, height)
    decreases |inputs|
  {
    if inputs == [] then []
    else [(InputKey(sha256, inputs[0]), DbItem(AsU32(first), txId, height))]
         + ExpandInputs(sha256, txId, height, inputs[1..], first + 1)
  }

  /** The per-transaction closure of `tx_to_item_stream`: one entry per
      input, in input order, all carrying the byte-reversed txid and the
      transaction's height tag. */
  function TxToItems(sha256: seq<byte> -> Digest, tagged: Tagged): (r: seq<Entry>)
    ensures |r| == |tagged.1.input|
    ensures forall i :: 0 <= i < |r| ==>
              && r[i].0 == InputKey(sha256, tagged.1.input[i])
              && r[i].1.inputIndex == AsU32(i)
              && r[i].1.txId == Reverse(Txid(sha256, tagged.1))
              && r[i].1.blockHeight == tagged.0
    ensures |tagged.1.input| <= U32_MODULUS ==> forall i :: 0 <= i < |r| ==> r[i].1.inputIndex == i
  {
    var txId := Reverse(Txid(sha256, tagged.1));
    ExpandInputs(sha256, txId, tagged.0, tagged.1.input, 0)
  }

  /** Every entry's txid is 32 bytes long and reverses back to the digest. */
  lemma TxIdIsReversedDigest(sha256: seq<byte> -> Digest, tagged: Tagged, i: nat)
    requires i < |tagged.1.input|
    ensures |TxToItems(sha256, tagged)[i].1.txId| == DIGEST_LEN
    ensures Reverse(TxToItems(sha256, tagged)[i].1.txId) == Txid(sha256, tagged.1)
  {
    ReverseInvolutive(Txid(sha256, tagged.1));
  }

  /** Content addressing: inputs with the same previous output, script and
      sequence get the same key, whatever transaction, position or height
      they come with. */
  lemma SameInputSameKey(sha256: seq<byte> -> Digest, a: Tagged, i: nat, b: Tagged, j: nat)
    requires i < |a.1.input| && j < |b.1.input|
    requires EncodeTxIn(a.1.input[i]) == EncodeTxIn(b.1.input[j])
    ensures TxToItems(sha256, a)[i].0 == TxToItems(sha256, b)[j].0
  {
  }

  /** A stream's `map`: `f` applied to each delivered item, in order. */
  function MapItems<A, B>(f: A -> B, xs: seq<A>): (r: seq<B>)
    ensures |r| == |xs|
    ensures forall j :: 0 <= j < |xs| ==> r[j] == f(xs[j])
  {
    if xs == [] then [] else [f(xs[0])] + MapItems(f, xs[1..])
  }

  /** `tx_to_item_stream`: maps each delivered transaction; errors pass through. */
  function TxToItemStream(sha256: seq<byte> -> Digest, s: Stream<Tagged>): (r: Stream<seq<Entry>>)
    ensures |r.items| == |s.items| && r.failure == s.failure
    ensures forall j :: 0 <= j < |s.items| ==> r.items[j] == TxToItems(sha256, s.items[j])
  {
    Stream(MapItems((t: Tagged) => TxToItems(sha256, t), s.items), s.failure)
  }

  // ---------------------------------------------------------------------
  // get_item_stream: height tagging of the two live feeds.
  // ---------------------------------------------------------------------

  /** The rawtx feed's closure: a mempool transaction is tagged height 0. */
  function TagMempoolTx(lib: Library, raw: seq<byte>): Result<Tagged, StreamError>
  {
    match lib.deserializeTx(raw)
    case Err(e) => Err(Deserialization(e))
    case Ok(tx) => Ok((0, tx))
  }

  /** The rawtx feed after deserialization, up to the first failure: the
      leading messages that deserialize, in order and tagged 0, then the
      Deserialization error of the first message that does not. */
  function MempoolStream(lib: Library, raws: seq<seq<byte>>): (r: Stream<Tagged>)
    ensures |r.items| <= |raws|
    ensures forall j :: 0 <= j < |r.items| ==>
              lib.deserializeTx(raws[j]).Ok? && r.items[j] == (0, lib.deserializeTx(raws[j]).value)
    ensures r.failure.None? <==> |r.items| == |raws|
    ensures r.failure.Some? ==>
              lib.deserializeTx(raws[|r.items|]).Err? &&
              r.failure == Some(Deserialization(lib.deserializeTx(raws[|r.items|]).error))
    decreases |raws|
  {
    if raws == [] then Stream([], None)
    else match TagMempoolTx(lib, raws[0])
      case Err(e) => Stream([], Some(e))
      case Ok(t) =>
        var rest := MempoolStream(lib, raws[1..]);
        assert forall j :: 0 <= j < |raws| - 1 ==> raws[1..][j] == raws[j + 1];
        Stream([t] + rest.items, rest.failure)
  }

  /** Every transaction of the mempool feed is tagged 0 and is the
      deserialization of one of the messages. */
  lemma MempoolStreamMembers(lib: Library, raws: seq<seq<byte>>)
    ensures forall x :: x in MempoolStream(lib, raws).items ==>
              x.0 == 0 && exists j :: 0 <= j < |raws| && lib.deserializeTx(raws[j]) == Ok(x.1)
  {
    var items := MempoolStream(lib, raws).items;
    forall x | x in items
      ensures x.0 == 0 && exists j :: 0 <= j < |raws| && lib.deserializeTx(raws[j]) == Ok(x.1)
    {
      var j :| 0 <= j < |items| && items[j] == x;
      assert lib.deserializeTx(raws[j]) == Ok(x.1);
    }
  }

  /** The hashblock feed's closures for one announced block: the block's
      height and body are both requested (a failure of either is a client
      error; the height request's is reported first), then the body is
      decoded. */
  function FetchAnnouncedBlock(lib: Library, node: Node, hash: seq<byte>): (r: Result<(u32, seq<Transaction>), StreamError>)
    ensures r.Ok? <==> && node.getBlockNumber(hash).Ok? && node.getRawBlock(hash).Ok?
                       && lib.decodeBlock(node.getRawBlock(hash).value).Ok?
    ensures r.Ok? ==> && node.getBlockNumber(hash) == Ok(r.value.0)
                      && r.value.1 == lib.decodeBlock(node.getRawBlock(hash).value).value.txdata
    ensures node.getBlockNumber(hash).Err? ==> r == Err(Client(node.getBlockNumber(hash).error))
    ensures node.getBlockNumber(hash).Ok? && node.getRawBlock(hash).Err? ==>
              r == Err(Client(node.getRawBlock(hash).error))
    ensures node.getBlockNumber(hash).Ok? && node.getRawBlock(hash).Ok? && lib.decodeBlock(node.getRawBlock(hash).value).Err? ==>
              r == Err(Deserialization(lib.decodeBlock(node.getRawBlock(hash).value).error))
  {
    match node.getBlockNumber(hash)
    case Err(e) => Err(Client(e))
    case Ok(height) =>
      match node.getRawBlock(hash)
      case Err(e) => Err(Client(e))
      case Ok(raw) =>
        match lib.decodeBlock(raw)
        case Err(d) => Err(Deserialization(d))
        case Ok(block) => Ok((height, block.txdata))
  }

  /** Pairs every transaction with the same height. */
  function TagAll(height: u32, txs: seq<Transaction>): (r: seq<Tagged>)
    ensures |r| == |txs|
    ensures forall i :: 0 <= i < |txs| ==> r[i] == (height, txs[i])
  {
    if txs == [] then [] else [(height, txs[0])] + TagAll(height, txs[1..])
  }

  /** `x` is a transaction of the block announced as `hash`, tagged with
      the height the node reports for it. */
  ghost predicate FromAnnouncedBlock(lib: Library, node: Node, hash: seq<byte>, x: Tagged)
  {
    var fetched := FetchAnnouncedBlock(lib, node, hash);
    fetched.Ok? && x.0 == fetched.value.0 && x.1 in fetched.value.1
  }

  /** How many of the announced blocks, from the first on, can be fetched
      and decoded before the first one that cannot. */
  ghost function Reached(lib: Library, node: Node, hashes: seq<seq<byte>>): (n: nat)
    ensures n <= |hashes|
    ensures forall g :: 0 <= g < n ==> FetchAnnouncedBlock(lib, node, hashes[g]).Ok?
    ensures n < |hashes| ==> FetchAnnouncedBlock(lib, node, hashes[n]).Err?
    decreases |hashes|
  {
    if hashes == [] || FetchAnnouncedBlock(lib, node, hashes[0]).Err? then 0
    else
      var n := 1 + Reached(lib, node, hashes[1..]);
      assert forall g :: 1 <= g <= n - 1 ==> hashes[g] == hashes[1..][g - 1];
      n
  }

  /** The position in the flattened feed where the transactions of the
      announced block `j` begin. */
  ghost function TxOffset(lib: Library, node: Node, hashes: seq<seq<byte>>, j: nat): nat
    requires j <= Reached(lib, node, hashes)
    decreases j
  {
    if j == 0 then 0
    else |FetchAnnouncedBlock(lib, node, hashes[0]).value.1| + TxOffset(lib, node, hashes[1..], j - 1)
  }

  /** Every transaction of every block the feed reaches (all blocks before
      it fetch) is delivered, blocks in announcement order and each block's
      transactions in the block's order, tagged with the block's reported
      height. */
  ghost predicate DeliversReachedBlocks(lib: Library, node: Node, hashes: seq<seq<byte>>, r: Stream<Tagged>)
  {
    forall j: nat, i: nat :: DeliversBlockTx(lib, node, hashes, r.items, j, i)
  }

  /** If block `j` is reached and has an `i`-th transaction, that
      transaction sits at position `TxOffset(j) + i`, tagged with the
      block's reported height. */
  ghost predicate DeliversBlockTx(lib: Library, node: Node, hashes: seq<seq<byte>>, items: seq<Tagged>, j: nat, i: nat)
  {
    j < Reached(lib, node, hashes) && i < |FetchAnnouncedBlock(lib, node, hashes[j]).value.1| ==>
      && TxOffset(lib, node, hashes, j) + i < |items|
      && items[TxOffset(lib, node, hashes, j) + i] ==
           (FetchAnnouncedBlock(lib, node, hashes[j]).value.0, FetchAnnouncedBlock(lib, node, hashes[j]).value.1[i])
  }

  /** The feed delivers nothing beyond the reached blocks' transactions and
      ends cleanly exactly when every block fetches; otherwise it ends with
      the error of the first block that does not. */
  ghost predicate EndsAtFirstFailure(lib: Library, node: Node, hashes: seq<seq<byte>>, r: Stream<Tagged>)
  {
    && |r.items| == TxOffset(lib, node, hashes, Reached(lib, node, hashes))
    && (r.failure.None? <==> Reached(lib, node, hashes) == |hashes|)
    && (r.failure.Some? ==>
          r.failure == Some(FetchAnnouncedBlock(lib, node, hashes[Reached(lib, node, hashes)]).error))
  }

  /** The hashblock feed, flattened into its blocks' transactions, up to the
      first failure. */
  function BlockStream(lib: Library, node: Node, hashes: seq<seq<byte>>): (r: Stream<Tagged>)
    ensures DeliversReachedBlocks(lib, node, hashes, r)
    ensures EndsAtFirstFailure(lib, node, hashes, r)
    ensures forall x :: x in r.items ==>
              exists j :: 0 <= j < |hashes| && FromAnnouncedBlock(lib, node, hashes[j], x)
    decreases |hashes|
  {
    if hashes == [] then
      BlockStreamStops(lib, node, hashes);
      Stream([], None)
    else match FetchAnnouncedBlock(lib, node, hashes[0])
      case Err(e) =>
        BlockStreamStops(lib, node, hashes);
        Stream([], Some(e))
      case Ok((height, txs)) =>
        var tagged := TagAll(height, txs);
        var rest := BlockStream(lib, node, hashes[1..]);
        BlockStreamStep(lib, node, hashes, tagged, rest.items);
        BlockStreamDelivers(lib, node, hashes, rest);
        BlockStreamEnds(lib, node, hashes, rest);
        Stream(tagged + rest.items, rest.failure)
  }

  /** A feed with no blocks, or whose first block fails, delivers nothing and
      ends at once: cleanly, or with that block's error. */
  lemma BlockStreamStops(lib: Library, node: Node, hashes: seq<seq<byte>>)
    requires hashes == [] || FetchAnnouncedBlock(lib, node, hashes[0]).Err?
    ensures var r := Stream([], if hashes == [] then None else Some(FetchAnnouncedBlock(lib, node, hashes[0]).error));
            DeliversReachedBlocks(lib, node, hashes, r) && EndsAtFirstFailure(lib, node, hashes, r)
  {
    assert Reached(lib, node, hashes) == 0;
    assert TxOffset(lib, node, hashes, 0) == 0;
  }

  /** Past a first block that fetches, the reached blocks are that block
      and the reached blocks of the rest. */
  lemma ReachedStep(lib: Library, node: Node, hashes: seq<seq<byte>>, j: nat)
    requires hashes != [] && FetchAnnouncedBlock(lib, node, hashes[0]).Ok?
    requires 0 < j <= Reached(lib, node, hashes)
    ensures Reached(lib, node, hashes) == 1 + Reached(lib, node, hashes[1..])
    ensures j - 1 < |hashes[1..]| ==> hashes[1..][j - 1] == hashes[j]
    ensures TxOffset(lib, node, hashes, j) ==
              |FetchAnnouncedBlock(lib, node, hashes[0]).value.1| + TxOffset(lib, node, hashes[1..], j - 1)
  {
  }

  /** The transactions of the first block, put in front of the feed of the
      remaining blocks, deliver every reached block of the whole feed. */
  lemma BlockStreamDelivers(lib: Library, node: Node, hashes: seq<seq<byte>>, rest: Stream<Tagged>)
    requires hashes != [] && FetchAnnouncedBlock(lib, node, hashes[0]).Ok?
    requires DeliversReachedBlocks(lib, node, hashes[1..], rest)
    ensures DeliversReachedBlocks(lib, node, hashes,
              Stream(TagAll(FetchAnnouncedBlock(lib, node, hashes[0]).value.0, FetchAnnouncedBlock(lib, node, hashes[0]).value.1)
                     + rest.items, rest.failure))
  {
    var first := FetchAnnouncedBlock(lib, node, hashes[0]).value;
    var tagged := TagAll(first.0, first.1);
    var r := Stream(tagged + rest.items, rest.failure);
    forall j: nat, i: nat
      ensures DeliversBlockTx(lib, node, hashes, r.items, j, i)
    {
      if j >= Reached(lib, node, hashes) || i >= |FetchAnnouncedBlock(lib, node, hashes[j]).value.1| {
      } else if j == 0 {
        assert r.items[i] == tagged[i];
      } else {
        ReachedStep(lib, node, hashes, j);
        DeliveredAt(lib, node, hashes[1..], rest, j - 1, i);
        var k := TxOffset(lib, node, hashes[1..], j - 1) + i;
        assert r.items[|tagged| + k] == rest.items[k];
      }
    }
    assert DeliversReachedBlocks(lib, node, hashes, r);
  }

  /** ... and end as the whole feed ends. */
  lemma BlockStreamEnds(lib: Library, node: Node, hashes: seq<seq<byte>>, rest: Stream<Tagged>)
    requires hashes != [] && FetchAnnouncedBlock(lib, node, hashes[0]).Ok?
    requires EndsAtFirstFailure(lib, node, hashes[1..], rest)
    ensures EndsAtFirstFailure(lib, node, hashes,
              Stream(TagAll(FetchAnnouncedBlock(lib, node, hashes[0]).value.0, FetchAnnouncedBlock(lib, node, hashes[0]).value.1)
                     + rest.items, rest.failure))
  {
    ReachedStep(lib, node, hashes, Reached(lib, node, hashes));
  }

  /** One instance of `DeliversReachedBlocks`. */
  lemma DeliveredAt(lib: Library, node: Node, hashes: seq<seq<byte>>, r: Stream<Tagged>, j: nat, i: nat)
    requires DeliversReachedBlocks(lib, node, hashes, r)
    requires j < Reached(lib, node, hashes) && i < |FetchAnnouncedBlock(lib, node, hashes[j]).value.1|
    ensures TxOffset(lib, node, hashes, j) + i < |r.items|
    ensures r.items[TxOffset(lib, node, hashes, j) + i] ==
              (FetchAnnouncedBlock(lib, node, hashes[j]).value.0, FetchAnnouncedBlock(lib, node, hashes[j]).value.1[i])
  {
    assert DeliversBlockTx(lib, node, hashes, r.items, j, i);
  }

  lemma BlockStreamStep(lib: Library, node: Node, hashes: seq<seq<byte>>, tagged: seq<Tagged>, rest: seq<Tagged>)
    requires hashes != []
    requires FetchAnnouncedBlock(lib, node, hashes[0]).Ok?
    requires tagged == TagAll(FetchAnnouncedBlock(lib, node, hashes[0]).value.0, FetchAnnouncedBlock(lib, node, hashes[0]).value.1)
    requires forall x :: x in rest ==> exists j :: 0 <= j < |hashes[1..]| && FromAnnouncedBlock(lib, node, hashes[1..][j], x)
    ensures forall x :: x in tagged + rest ==> exists j :: 0 <= j < |hashes| && FromAnnouncedBlock(lib, node, hashes[j], x)
  {
    forall x | x in tagged + rest
      ensures exists j :: 0 <= j < |hashes| && FromAnnouncedBlock(lib, node, hashes[j], x)
    {
      if x in tagged {
        var i :| 0 <= i < |tagged| && tagged[i] == x;
        assert FromAnnouncedBlock(lib, node, hashes[0], x);
      } else {
        var j :| 0 <= j < |hashes[1..]| && FromAnnouncedBlock(lib, node, hashes[1..][j], x);
        assert FromAnnouncedBlock(lib, node, hashes[j + 1], x);
      }
    }
  }

  /** `m` is `select`'s output for inputs `a` and `b`: an interleaving that
      keeps each side's own order. */
  predicate Interleaves<T(==)>(m: seq<T>, a: seq<T>, b: seq<T>)
    decreases |m|
  {
    if m == [] then a == [] && b == []
    else
      || (a != [] && m[0] == a[0] && Interleaves(m[1..], a[1..], b))
      || (b != [] && m[0] == b[0] && Interleaves(m[1..], a, b[1..]))
  }

  /** An interleaving holds exactly the items of its two sides. */
  lemma {:induction false} InterleavingMembers<T>(m: seq<T>, a: seq<T>, b: seq<T>)
    requires Interleaves(m, a, b)
    ensures |m| == |a| + |b|
    ensures forall x :: x in m <==> x in a || x in b
    decreases |m|
  {
    if m != [] {
      if a != [] && m[0] == a[0] && Interleaves(m[1..], a[1..], b) {
        InterleavingMembers(m[1..], a[1..], b);
        assert forall x :: x in a <==> x == a[0] || x in a[1..];
      } else {
        InterleavingMembers(m[1..], a, b[1..]);
        assert forall x :: x in b <==> x == b[0] || x in b[1..];
      }
      assert forall x :: x in m <==> x == m[0] || x in m[1..];
    }
  }

  /** The merged live feed: whatever `select` delivers from the two feeds
      (any interleaving of what each delivered) carries height 0 for a
      mempool transaction and the reported height of its block for a block
      transaction. */
  lemma LiveFeedHeights(lib: Library, node: Node, raws: seq<seq<byte>>, hashes: seq<seq<byte>>,
                        merged: seq<Tagged>, fromMempool: nat, fromBlocks: nat)
    requires fromMempool <= |MempoolStream(lib, raws).items|
    requires fromBlocks <= |BlockStream(lib, node, hashes).items|
    requires Interleaves(merged, MempoolStream(lib, raws).items[..fromMempool],
                                 BlockStream(lib, node, hashes).items[..fromBlocks])
    ensures forall x :: x in merged ==>
              (x.0 == 0 && exists j :: 0 <= j < |raws| && lib.deserializeTx(raws[j]) == Ok(x.1))
              || exists j :: 0 <= j < |hashes| && FromAnnouncedBlock(lib, node, hashes[j], x)
  {
    var a := MempoolStream(lib, raws).items;
    var b := BlockStream(lib, node, hashes).items;
    InterleavingMembers(merged, a[..fromMempool], b[..fromBlocks]);
    MempoolStreamMembers(lib, raws);
    forall x | x in merged
      ensures (x.0 == 0 && exists j :: 0 <= j < |raws| && lib.deserializeTx(raws[j]) == Ok(x.1))
              || exists j :: 0 <= j < |hashes| && FromAnnouncedBlock(lib, node, hashes[j], x)
    {
      if x in a[..fromMempool] { assert x in a; } else { assert x in b; }
    }
  }

  // ---------------------------------------------------------------------
  // scrape
  // ---------------------------------------------------------------------

  /** The process-wide `STATUS` record the scrape updates. */
  class ScrapeStatus {
    var state: u32
    var scrapePosition: u32

    constructor (state: u32, scrapePosition: u32)
      ensures this.state == state && this.scrapePosition == scrapePosition
    {
      this.state := state;
      this.scrapePosition := scrapePosition;
    }
  }

  /** The state value a running scrape stores. */
  const SCRAPING: u32 := 1

  /** The upper end of the walk: the given one, else the node's chain length. */
  function ResolveEnd(node: Node, optEnd: Option<u32>): Result<u32, ClientError>
  {
    match optEnd
    case Some(end) => Ok(end)
    case None => node.getChainLength
  }

  /** One step of the walk: block hash at `height`, then the raw block, then
      its decoding. */
  function FetchHeight(lib: Library, node: Node, height: u32): (r: Result<seq<Transaction>, StreamError>)
    ensures r.Ok? <==> && node.getBlockHash(height).Ok?
                       && node.getRawBlock(node.getBlockHash(height).value).Ok?
                       && lib.decodeBlock(node.getRawBlock(node.getBlockHash(height).value).value).Ok?
    ensures r.Ok? ==> r.value == lib.decodeBlock(node.getRawBlock(node.getBlockHash(height).value).value).value.txdata
    ensures node.getBlockHash(height).Err? ==> r == Err(Client(node.getBlockHash(height).error))
    ensures node.getBlockHash(height).Ok? && node.getRawBlock(node.getBlockHash(height).value).Err? ==>
              r == Err(Client(node.getRawBlock(node.getBlockHash(height).value).error))
    ensures && node.getBlockHash(height).Ok? && node.getRawBlock(node.getBlockHash(height).value).Ok?
            && lib.decodeBlock(node.getRawBlock(node.getBlockHash(height).value).value).Err? ==>
              r == Err(Deserialization(lib.decodeBlock(node.getRawBlock(node.getBlockHash(height).value).value).error))
  {
    match node.getBlockHash(height)
    case Err(e) => Err(Client(e))
    case Ok(hash) =>
      match node.getRawBlock(hash)
      case Err(e) => Err(Client(e))
      case Ok(raw) =>
        match lib.decodeBlock(raw)
        case Err(d) => Err(Deserialization(d))
        case Ok(block) => Ok(block.txdata)
  }

  /** The transactions of heights `lo..hi`, in ascending order, each tagged
      with its block's height; the walk stops at the first failed height. */
  function Walk(lib: Library, node: Node, lo: u32, hi: u32): (r: Stream<Tagged>)
    ensures lo >= hi ==> r == Stream([], None)
    ensures r.failure.Some? ==>
              exists h: u32 :: lo <= h < hi && FetchHeight(lib, node, h).Err? && r.failure == Some(FetchHeight(lib, node, h).error)
    decreases hi - lo
  {
    if lo >= hi then Stream([], None)
    else match FetchHeight(lib, node, lo)
      case Err(e) => Stream([], Some(e))
      case Ok(txs) =>
        var rest := Walk(lib, node, lo + 1, hi);
        Stream(TagAll(lo, txs) + rest.items, rest.failure)
  }

  /** The last height whose position the walk records: the first failing
      height, or `hi - 1` when none fails. */
  function LastVisited(lib: Library, node: Node, lo: u32, hi: u32): (r: u32)
    requires lo < hi
    ensures lo <= r < hi
    ensures Walk(lib, node, lo, hi).failure.None? ==> r == hi - 1
    ensures Walk(lib, node, lo, hi).failure.Some? ==>
              FetchHeight(lib, node, r).Err? && Walk(lib, node, lo, hi).failure == Some(FetchHeight(lib, node, r).error)
    ensures forall h: u32 :: lo <= h < r ==> FetchHeight(lib, node, h).Ok?
    decreases hi - lo
  {
    if FetchHeight(lib, node, lo).Err? then lo
    else
      assert Walk(lib, node, lo, hi).failure == Walk(lib, node, lo + 1, hi).failure;
      if lo + 1 == hi then lo else LastVisited(lib, node, lo + 1, hi)
  }

  /** One height of the walk: on success the walk continues at the next
      height, on failure it ends there with that height's error. */
  lemma WalkStep(lib: Library, node: Node, h: u32, hi: u32)
    requires h < hi
    ensures FetchHeight(lib, node, h).Ok? ==>
              && Walk(lib, node, h, hi) == Stream(TagAll(h, FetchHeight(lib, node, h).value) + Walk(lib, node, h + 1, hi).items,
                                                  Walk(lib, node, h + 1, hi).failure)
              && (h + 1 < hi ==> LastVisited(lib, node, h, hi) == LastVisited(lib, node, h + 1, hi))
              && (h + 1 == hi ==> LastVisited(lib, node, h, hi) == h)
    ensures FetchHeight(lib, node, h).Err? ==>
              Walk(lib, node, h, hi) == Stream([], Some(FetchHeight(lib, node, h).error)) && LastVisited(lib, node, h, hi) == h
  {
  }

  /** The scrape position left behind by a scrape that started from `previous`. */
  function FinalPosition(lib: Library, node: Node, start: u32, optEnd: Option<u32>, previous: u32): u32
  {
    match ResolveEnd(node, optEnd)
    case Err(_) => previous
    case Ok(end) => if start < end then LastVisited(lib, node, start, end) else previous
  }

  /** Every transaction of the walk is tagged with a height in `lo..hi`, and
      the tags never decrease. */
  lemma {:induction false} WalkHeightsAscending(lib: Library, node: Node, lo: u32, hi: u32)
    ensures forall i :: 0 <= i < |Walk(lib, node, lo, hi).items| ==>
              lo <= Walk(lib, node, lo, hi).items[i].0 < hi
    ensures forall i, j :: 0 <= i < j < |Walk(lib, node, lo, hi).items| ==>
              Walk(lib, node, lo, hi).items[i].0 <= Walk(lib, node, lo, hi).items[j].0
    decreases hi - lo
  {
    if lo < hi && FetchHeight(lib, node, lo).Ok? {
      WalkHeightsAscending(lib, node, lo + 1, hi);
      var tagged := TagAll(lo, FetchHeight(lib, node, lo).value);
      var s := Walk(lib, node, lo, hi).items;
      assert s == tagged + Walk(lib, node, lo + 1, hi).items;
      assert forall i :: |tagged| <= i < |s| ==> s[i] == Walk(lib, node, lo + 1, hi).items[i - |tagged|];
    }
  }

  /** Every transaction the walk yields comes from the block at the height it
      is tagged with, and that height lies in `lo..hi` and can be fetched. */
  lemma {:induction false} WalkSound(lib: Library, node: Node, lo: u32, hi: u32)
    ensures forall x: Tagged :: x in Walk(lib, node, lo, hi).items ==>
              lo <= x.0 < hi && FetchHeight(lib, node, x.0).Ok? && x.1 in FetchHeight(lib, node, x.0).value
    decreases hi - lo
  {
    if lo < hi && FetchHeight(lib, node, lo).Ok? {
      WalkSound(lib, node, lo + 1, hi);
      var txs := FetchHeight(lib, node, lo).value;
      var tagged := TagAll(lo, txs);
      var rest := Walk(lib, node, lo + 1, hi).items;
      assert Walk(lib, node, lo, hi).items == tagged + rest;
      forall x: Tagged | x in tagged + rest
        ensures lo <= x.0 < hi && FetchHeight(lib, node, x.0).Ok? && x.1 in FetchHeight(lib, node, x.0).value
      {
        if x in tagged {
          var k :| 0 <= k < |tagged| && tagged[k] == x;
          assert x == (lo, txs[k]);
        }
      }
    }
  }

  /** The walk ends cleanly exactly when every height in `lo..hi` can be
      fetched and decoded. */
  lemma {:induction false} WalkCompletesIff(lib: Library, node: Node, lo: u32, hi: u32)
    ensures Walk(lib, node, lo, hi).failure.None? <==>
              forall h: u32 :: lo <= h < hi ==> FetchHeight(lib, node, h).Ok?
    decreases hi - lo
  {
    if lo < hi {
      WalkCompletesIff(lib, node, lo + 1, hi);
    }
  }

  /** The walk yields every transaction of every block in `lo..hi` that it
      reaches (all blocks before it can be fetched), tagged with that
      block's height; a later failure does not take them back. */
  lemma {:induction false} WalkCoversBlocks(lib: Library, node: Node, lo: u32, hi: u32, h: u32, i: nat)
    requires lo <= h < hi
    requires forall g: u32 :: lo <= g <= h ==> FetchHeight(lib, node, g).Ok?
    requires FetchHeight(lib, node, h).Ok? && i < |FetchHeight(lib, node, h).value|
    ensures (h, FetchHeight(lib, node, h).value[i]) in Walk(lib, node, lo, hi).items
    decreases hi - lo
  {
    var txs := FetchHeight(lib, node, lo);
    assert txs.Ok?;
    var tagged := TagAll(lo, txs.value);
    if h == lo {
      assert tagged[i] == (h, txs.value[i]);
    } else {
      WalkCoversBlocks(lib, node, lo + 1, hi, h, i);
    }
  }

  /** A walk that has produced `acc` up to height `h` ends there when `h`
      cannot be fetched. */
  lemma WalkFails(lib: Library, node: Node, lo: u32, h: u32, hi: u32, acc: seq<Tagged>)
    requires lo <= h < hi && FetchHeight(lib, node, h).Err?
    requires Walk(lib, node, lo, hi) == Stream(acc + Walk(lib, node, h, hi).items, Walk(lib, node, h, hi).failure)
    requires LastVisited(lib, node, lo, hi) == LastVisited(lib, node, h, hi)
    ensures Walk(lib, node, lo, hi) == Stream(acc, Some(FetchHeight(lib, node, h).error))
    ensures LastVisited(lib, node, lo, hi) == h
  {
    WalkStep(lib, node, h, hi);
    assert acc + [] == acc;
  }

  /** A walk that has produced `acc` up to height `h` goes on past `h` when
      `h` can be fetched, having produced that height's transactions too. */
  lemma WalkAdvance(lib: Library, node: Node, lo: u32, h: u32, hi: u32, acc: seq<Tagged>)
    requires lo <= h < hi && FetchHeight(lib, node, h).Ok?
    requires Walk(lib, node, lo, hi) == Stream(acc + Walk(lib, node, h, hi).items, Walk(lib, node, h, hi).failure)
    ensures Walk(lib, node, lo, hi) == Stream((acc + TagAll(h, FetchHeight(lib, node, h).value)) + Walk(lib, node, h + 1, hi).items,
                                              Walk(lib, node, h + 1, hi).failure)
    ensures h + 1 == hi ==> Walk(lib, node, lo, hi) == Stream(acc + TagAll(h, FetchHeight(lib, node, h).value), None)
  {
    var tagged := TagAll(h, FetchHeight(lib, node, h).value);
    var rest := Walk(lib, node, h + 1, hi);
    assert Walk(lib, node, h, hi) == Stream(tagged + rest.items, rest.failure);
    assert acc + (tagged + rest.items) == (acc + tagged) + rest.items;
    if h + 1 == hi {
      assert (acc + tagged) + [] == acc + tagged;
    }
  }

  /** The last position of such a walk is that of its remainder from `h + 1`,
      or `h` itself when `h` is the last height. */
  lemma PositionAdvance(lib: Library, node: Node, lo: u32, h: u32, hi: u32)
    requires lo <= h < hi && FetchHeight(lib, node, h).Ok?
    requires LastVisited(lib, node, lo, hi) == LastVisited(lib, node, h, hi)
    ensures h + 1 < hi ==> LastVisited(lib, node, lo, hi) == LastVisited(lib, node, h + 1, hi)
    ensures h + 1 == hi ==> LastVisited(lib, node, lo, hi) == h
  {
  }

  /** The height loop of `scrape`: for each height of `lo..hi`, records it as
      the scrape position, then fetches and decodes its block; it stops at
      the first failure. */
  method WalkHeights(status: ScrapeStatus, lib: Library, node: Node, lo: u32, hi: u32)
    returns (walked: Stream<Tagged>)
    requires lo < hi
    modifies status
    ensures status.state == old(status.state)
    ensures status.scrapePosition == LastVisited(lib, node, lo, hi)
    ensures walked == Walk(lib, node, lo, hi)
  {
    var h := lo;
    var acc: seq<Tagged> := [];
    while true
      invariant lo <= h < hi
      invariant status.state == old(status.state)
      invariant Walk(lib, node, lo, hi) == Stream(acc + Walk(lib, node, h, hi).items, Walk(lib, node, h, hi).failure)
      invariant LastVisited(lib, node, lo, hi) == LastVisited(lib, node, h, hi)
      decreases hi - h
    {
      status.scrapePosition := h;
      var fetched := FetchHeight(lib, node, h);
      if fetched.Err? {
        WalkFails(lib, node, lo, h, hi, acc);
        walked := Stream(acc, Some(fetched.error));
        return;
      }
      WalkAdvance(lib, node, lo, h, hi, acc);
      PositionAdvance(lib, node, lo, h, hi);
      acc := acc + TagAll(h, fetched.value);
      if h + 1 == hi {
        walked := Stream(acc, None);
        return;
      }
      h := h + 1;
    }
  }

  /** `scrape` run to the end of its stream: marks the status as scraping,
      resolves the end height, then walks the heights from `start` to the
      end and expands every transaction into its entries.
      The state is never set back. */
  method Scrape(status: ScrapeStatus, lib: Library, node: Node, start: u32, optEnd: Option<u32>)
    returns (out: Stream<seq<Entry>>)
    modifies status
    ensures status.state == SCRAPING
    ensures status.scrapePosition == FinalPosition(lib, node, start, optEnd, old(status.scrapePosition))
    ensures optEnd.Some? ==> out == TxToItemStream(lib.sha256, Walk(lib, node, start, optEnd.value))
    ensures optEnd.None? && node.getChainLength.Ok? ==>
              out == TxToItemStream(lib.sha256, Walk(lib, node, start, node.getChainLength.value))
    ensures optEnd.None? && node.getChainLength.Err? ==> out == Stream([], Some(Client(node.getChainLength.error)))
  {
    status.state := SCRAPING;
    var resolved := ResolveEnd(node, optEnd);
    if resolved.Err? {
      out := TxToItemStream(lib.sha256, Stream([], Some(Client(resolved.error))));
      return;
    }
    var end := resolved.value;
    if start >= end {
      out := TxToItemStream(lib.sha256, Stream([], None));
      return;
    }
    var walked := WalkHeights(status, lib, node, start, end);
    out := TxToItemStream(lib.sha256, walked);
  }
}
