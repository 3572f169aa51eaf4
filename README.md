# prefix-server: a Dafny model of the input index

prefix-server keeps a secondary index over Bitcoin transaction inputs. The key of each input is the SHA-256 of its consensus encoding. A client who knows a prefix of that key can find the transaction that spent the input. This project models the sequential logic under the server's async and ZMQ plumbing, in three parts, and proves properties of that model.

- **The index store** (`src/db.rs`). `KeyDB` stores prost-encoded `DbItem`s in RocksDB under raw byte keys.
  - `put` is an upsert.
  - `prefix_iter` seeks to the first key at or after the prefix, takes keys while they start with the prefix, decodes the values and filters them by block height.
  - Module `Db` models the store as a class `KeyDB` over a map from keys to encoded bytes, plus the codec.
  - The scan is a pipeline of functions over the keys in iterator order. That order is RocksDB's bytewise comparator, and module `Lex` defines it as `LexLe`.
  - The main theorem is `ScanIsPrefixFilter`. On a sorted store, take-while from the seek position equals filtering by "starts with the prefix", because keys that share a prefix are contiguous (`PrefixContiguous`).
  - The server's insertion loop (`src/main.rs:55-61`) is `KeyDB.PutAll`.
- **Expansion of a transaction into index entries** (`src/bitcoin/streams.rs` and the older `src/bitcoin/tx_stream.rs`). Each input becomes one entry: (SHA-256 of the input's encoding, item).
  - The current pipeline stores the position, the byte-reversed txid and the height tag. The older one stores the position and the txid in digest order, with no height.
  - Module `Consensus` writes out the input layout: 32-byte previous txid, 4-byte LE vout, CompactSize script length, script, 4-byte LE sequence. It also writes out the witness-free transaction layout that the txid hashes.
  - The encoding is proved injective on (previous output, script, sequence) through a decoder that inverts it.
- **Height tagging and the backfill walk** (`src/bitcoin/streams.rs`).
  - Mempool transactions are tagged with height 0. Block transactions get the height the node reports for them.
  - The merged feed is any interleaving of the two feeds' outputs.
  - `Streams.Scrape` is a loop over a `ScrapeStatus` object:
    - it sets `state := 1`;
    - it resolves the end height (the given one, or the chain length);
    - it walks `start..end` in ascending order, storing each height in `scrapePosition` before fetching that height's block.
  - The loop is proved against the recursive specification `Walk`.

Several things are parameters, not definitions:

- SHA-256 has type `seq<byte> -> Digest`, where a `Digest` is exactly 32 bytes. The library's transaction and block decoders are also parameters. All three are in `Streams.Library`.
- The node's RPC calls are parameters, in `Streams.Node`.
- prost's encoder and decoder are parameters (`Db.ItemCodec`). `KeyDB.Valid()` requires that decoding an encoded item returns that item.

A futures stream is modelled as `Streams.Stream`: the items it delivered up to its first error, then either a clean end or that first error. In futures 0.1 an error item does not end a stream, and polling may go on past it. The model cuts every stream at its first error. That is what a consumer that stops at the first error sees. The older pipeline's only consumer, the insertion loop's `for_each` (`src/main.rs:55-65`), is one. Nothing in this source consumes the streams of `streams.rs`.

The model follows what the code does, including where it does less than a reader might expect of an index server:

- Nothing in `scrape` sets the state back to 0 afterwards.
- Nothing refuses a second scrape while one is running.
- `state` and `scrape_position` are two plain integer fields.
- No minimum prefix length is checked: `min_prefix` in `src/settings.rs` is never read.
- The older pipeline, which `src/main.rs` actually runs, does not reverse the txid.
- `src/bitcoin/mod.rs` compiles `tx_stream.rs` and not `streams.rs`. `streams.rs` refers to a `STATUS` global that none of the files defines. Both pipelines are modelled side by side. The status fields are taken from their uses in `streams.rs` and `examples/status.py`.
- `src/main.rs` passes the older pipeline's `Item`s to `KeyDB::put`, which takes a `DbItem`. `KeyDB.PutAll` takes `DbItem` pairs, as `put` does.

## Model

| member | source | states |
|---|---|---|
| `Bytes.AsU32` | src/bitcoin/streams.rs:97 | `index as u32` keeps the low 32 bits; for indices below 2^32 it is the index itself |
| `Bytes.Reverse` | src/bitcoin/streams.rs:78-81 | the reversal has the same length and puts element `|s|-1-i` at position `i` |
| `Bytes.ReverseInvolutive` | src/bitcoin/streams.rs:80 | reversing twice gives back the original bytes, so the stored txid reverses back to the digest |
| `Bytes.LeRoundTrip` | src/bitcoin/streams.rs:86-88 | the little-endian field encoding used for the vout and the sequence reads back to the same number |
| `Lex.LexLe` | src/db.rs:33 | the store's bytewise key order: a prefix sorts at or before every key that extends it, keys that differ in their first byte sort by that byte, and no non-empty key sorts at or before the empty key |
| `Lex.LexLeAntisymmetric` | src/db.rs:33 | two keys that each sort at or before the other are equal, so the bytewise order has no ties |
| `Lex.LexLeTransitive` | src/db.rs:33 | the bytewise key order is transitive |
| `Lex.LexLeTotal` | src/db.rs:33 | any two keys are comparable in the bytewise order |
| `Lex.PrefixIsLexLe` | src/db.rs:33-34 | a key sorts at or after every one of its prefixes, so keys starting with `p` all lie at or after the seek position for `p` |
| `Lex.PrefixContiguous` | src/db.rs:33-34 | any key sorted between two keys that start with `p` also starts with `p`: the keys sharing a prefix form one contiguous run |
| `Lex.SortedKeys` | src/db.rs:31-33 | the store's keys in iterator order: sorted ascending, and holding exactly the stored keys, each once |
| `Consensus.CompactSize` | src/bitcoin/streams.rs:88 | the script-length prefix takes 1 byte below 0xFD (the value itself), 3 bytes up to 0xFFFF, 5 bytes up to 0xFFFF_FFFF and 9 bytes beyond, with a marker byte of at least 0xFD in front of the longer forms |
| `Consensus.CompactSizeRoundTrip` | src/bitcoin/streams.rs:86-88 | reading back the CompactSize encoding of a 64-bit length gives that length and leaves the following bytes alone |
| `Consensus.EncodeTxIn` | src/bitcoin/streams.rs:86-88 | the input's encoding starts with the previous txid and has length 40 plus the CompactSize plus the script |
| `Consensus.TxInRoundTrip` | src/bitcoin/streams.rs:86-88 | decoding an encoded input recovers its previous output, script and sequence, and leaves the following bytes untouched |
| `Consensus.EncodeTxInInjective` | src/bitcoin/streams.rs:85-90 | two inputs have the same encoding if and only if they agree on previous output, script and sequence; the witness plays no part |
| `Consensus.EncodeInputsIgnoresWitness` | src/bitcoin/streams.rs:78 | the inputs' part of the txid preimage is the same with and without their witnesses |
| `Consensus.Txid` | src/bitcoin/streams.rs:78 | `txid()` is double SHA-256 of the legacy serialization, and equals that of the witness-free copy |
| `Consensus.TxidIgnoresWitness` | src/bitcoin/streams.rs:78 | the txid is the same with and without the inputs' witnesses |
| `Db.Seek` | src/db.rs:33 | the iterator starts at the first key at or after the prefix: every key before that position sorts below it |
| `Db.TakeWhilePrefix` | src/db.rs:34 | when it does not panic, the result is a prefix of the visited keys, all of them start with `p`, and the next key does not; with no key shorter than `p` it never panics |
| `Db.ScanKeys` | src/db.rs:31-34 | the keys the iterator hands on: a contiguous run of the sorted keys starting at the seek position, each starting with `p`, with the key after the run not starting with `p`; no panic when no key is shorter than `p` |
| `Db.Lookup` | src/db.rs:35-38 | each visited key is replaced by its decoded item, in the same order |
| `Db.FilterHeight` | src/db.rs:40-54 | no interval keeps exactly the height-0 items; an interval with `end == 0` keeps exactly heights `>= start`; otherwise it keeps exactly `start <= height <= end`, both bounds inclusive; a single item is kept as it is exactly when it passes |
| `Db.FilterHeightAppend` | src/db.rs:40-54 | filtering a concatenation is the concatenation of the filtered parts; with the one-item case of `Db.FilterHeight` this keeps the input order and every duplicate |
| `Db.PrefixScan` | src/db.rs:26-55 | on a sorted store, the result is the height-filtered items of exactly the keys that start with `p`, in key order; it cannot panic when no key is shorter than `p` |
| `Db.FilterPrefix` | src/db.rs:33-34 | reference definition of the scan's key set: a key is kept exactly when it occurs in the store and starts with `p` |
| `Db.SeekSkipsNoMatch` | src/db.rs:33 | no key skipped by the seek starts with the prefix |
| `Db.TakeWhileMatching` | src/db.rs:34 | the take-while with a prefix test that cannot panic: the longest run of leading keys that start with `p` |
| `Db.TakeWhileAsWritten` | src/db.rs:34 | the source's slice panics exactly when the key where the run stops is shorter than `p`; otherwise it yields the same run as the panic-free test |
| `Db.TakeWhileIsFilter` | src/db.rs:33-34 | on sorted keys at or after `p`, taking while the prefix matches yields every key with prefix `p` |
| `Db.SeekSuffix` | src/db.rs:33-34 | on a sorted store, the keys from the seek position on are sorted and at or after `p`, and the run taken from there holds every matching key |
| `Db.ScanIsPrefixFilter` | src/db.rs:33-34 | on a sorted store, take-while from the seek position equals filtering the whole store by prefix |
| `Db.ScanKeysContiguous` | src/db.rs:33-34 | the scan visits one contiguous, sorted run of keys that starts at the first key at or after `p` |
| `Db.PrefixScanMembers` | src/db.rs:31-54 | an item is returned if and only if it is the value of a stored key starting with `p` and its height passes the filter |
| `Db.LookupPrefixMembers` | src/db.rs:33-38 | an item is looked up for a prefix if and only if some stored key with that prefix holds it |
| `Db.PrefixScanChecked` | src/db.rs:26-55 | the scan with the panic-free test returns exactly the matching items on a sorted store, whatever the prefix length |
| `Db.LongPrefixPanics` | src/db.rs:34 | with one stored 32-byte key and a 33-byte prefix sorting before it, the scan as written panics while the intended result is empty |
| `Db.ApplyPutsKeys` | src/main.rs:55-61 | after a batch of puts, a key is stored if and only if it was stored before or some pair wrote it |
| `Db.ApplyPutsUntouched` | src/db.rs:20-24 | a key that no pair writes keeps its value |
| `Db.ApplyPutsLastWins` | src/main.rs:57-60 | a key holds the value of the last pair that wrote it, so a height-N write after a height-0 write leaves height N |
| `Db.ReplayIsIdempotent` | src/main.rs:55-61 | delivering the same batch twice leaves the store exactly as one delivery did |
| `Db.KeyDB.Items` | src/db.rs:37 | the decoded view has the store's keys, and decoding each stored value yields that view's item |
| `Db.KeyDB.constructor` | src/db.rs:12-14 | opening a store whose contents were written through the codec gives a valid handle with those contents |
| `Db.KeyDB.Put` | src/db.rs:20-24 | upsert: the raw store is the old one with `hash` mapped to the item's encoding, so a read of `hash` decodes to the item and every other key is unchanged |
| `Db.KeyDB.PutAll` | src/main.rs:55-61 | the store after putting each pair in order, as the raw bytes and as the decoded items |
| `Db.KeyDB.PrefixIter` | src/db.rs:26-55 | on the current contents, a non-panicking result is the height-filtered items of exactly the stored keys with prefix `p`, in key order; with no stored key shorter than `p` it does not panic |
| `Streams.ExpandInputs` | src/bitcoin/streams.rs:83-103 | one entry per input, in order; entry `i` has the input's key and index `first + i`, cast to u32 |
| `Streams.TxToItems` | src/bitcoin/streams.rs:76-103 | exactly one entry per input, in input order; entry `i` is keyed by SHA-256 of input `i`'s encoding and carries index `i`, the byte-reversed txid and the transaction's height tag |
| `Streams.TxIdIsReversedDigest` | src/bitcoin/streams.rs:78-81 | every entry's txid is 32 bytes and reverses back to the txid digest |
| `Streams.SameInputSameKey` | src/bitcoin/streams.rs:85-90 | inputs with identical encodings get identical keys, across transactions, positions and heights |
| `Streams.InputKey` | src/bitcoin/streams.rs:85-89 | the key of an input is SHA-256 of its consensus encoding, which is that of its witness-free copy: the witness does not affect the key |
| `Streams.MapItems` | src/bitcoin/streams.rs:76 | a stream's `map` applies the closure to each delivered item, in order, and delivers as many items |
| `Streams.TxToItemStream` | src/bitcoin/streams.rs:73-105 | each delivered transaction is mapped to its entries, and an error ends the item stream as it ended the transaction stream |
| `Streams.MempoolStream` | src/bitcoin/streams.rs:45-49 | the feed delivers, in order and tagged 0, the deserializations of the leading messages that deserialize; it ends cleanly exactly when every message deserializes, and otherwise with the Deserialization error of the first message that does not |
| `Streams.MempoolStreamMembers` | src/bitcoin/streams.rs:45-49 | every transaction of the mempool feed is tagged 0 and is the deserialization of one of the messages |
| `Streams.FetchAnnouncedBlock` | src/bitcoin/streams.rs:54-66 | an announced block succeeds exactly when its height, its body and the body's decoding all succeed; it then yields the node's reported height and the decoded block's `txdata`; a failed height or body request gives that request's Client error, and a failed decoding the Deserialization error |
| `Streams.TagAll` | src/bitcoin/streams.rs:64 | every transaction of a block is paired with that block's height, in order |
| `Streams.Reached` | src/bitcoin/streams.rs:52-67 | the number of leading announced blocks that fetch: every block before it fetches, and the block at it, if any, does not |
| `Streams.BlockStream` | src/bitcoin/streams.rs:52-67 | every transaction of every reached block is delivered at its place in the flattened feed, blocks in announcement order and a block's transactions in the block's order, tagged with the block's reported height, and nothing else is delivered; the feed ends cleanly exactly when every block fetches, otherwise with the first failing block's error; every delivered transaction belongs to an announced block |
| `Streams.BlockStreamStops` | src/bitcoin/streams.rs:52-67 | a feed with no blocks ends cleanly with nothing, and one whose first block fails ends with nothing and that block's error |
| `Streams.BlockStreamDelivers` | src/bitcoin/streams.rs:61-67 | the first block's tagged transactions in front of the rest's feed deliver every reached block of the whole feed at its place |
| `Streams.BlockStreamEnds` | src/bitcoin/streams.rs:61-67 | the first block's tagged transactions in front of the rest's feed end the way the whole feed must end |
| `Streams.InterleavingMembers` | src/bitcoin/streams.rs:69 | `select`'s output holds exactly the items of its two inputs, and as many |
| `Streams.LiveFeedHeights` | src/bitcoin/streams.rs:40-71 | whatever the merged feed delivers is either a deserialized mempool transaction tagged 0 or a transaction of an announced block tagged with that block's reported height |
| `Streams.FetchHeight` | src/bitcoin/streams.rs:131-146 | a height succeeds exactly when its block hash, its raw block and the block's decoding all succeed, and then yields the decoded block's `txdata`; a failed hash or raw-block request gives that request's Client error, and a failed decoding the Deserialization error |
| `Streams.Walk` | src/bitcoin/streams.rs:125-149 | the specification of the height loop: an empty range yields nothing and ends cleanly; an error that ends the walk is the error of some height in the range |
| `Streams.LastVisited` | src/bitcoin/streams.rs:127-129 | the last position written is in `lo..hi`: `hi - 1` when the walk completes, otherwise the first height whose fetch fails (every height before it fetches), whose error ends the stream |
| `Streams.WalkStep` | src/bitcoin/streams.rs:125-149 | a fetched height contributes its tagged transactions and the walk continues at the next height; a failed height ends the walk with its error |
| `Streams.WalkHeightsAscending` | src/bitcoin/streams.rs:125-144 | every transaction of the walk is tagged with a height in `start..end`, `end` excluded, and the tags never decrease |
| `Streams.WalkCompletesIff` | src/bitcoin/streams.rs:125-149 | the walk ends without error if and only if every height in `start..end` can be fetched and decoded |
| `Streams.WalkSound` | src/bitcoin/streams.rs:125-145 | every transaction the walk yields comes from a fetched block at the height it is tagged with, that height in `start..end` |
| `Streams.WalkCoversBlocks` | src/bitcoin/streams.rs:140-145 | the walk yields every transaction of every block it reaches (every height up to that block's fetches), tagged with that block's height, even when a later height fails |
| `Streams.WalkFails` | src/bitcoin/streams.rs:126-149 | once the walk reaches a height that cannot be fetched, it ends with what it has produced and that height's error, and that height is the last position written |
| `Streams.WalkAdvance` | src/bitcoin/streams.rs:126-149 | a height that can be fetched appends its tagged transactions and the walk goes on at the next height; at the last height the walk ends cleanly with that height as the position |
| `Streams.PositionAdvance` | src/bitcoin/streams.rs:127-129 | past a height that fetches, the last position written is that of the rest of the walk, or that height itself when it is the last |
| `Streams.WalkHeights` | src/bitcoin/streams.rs:125-149 | the height loop leaves `state` alone, leaves the position at the last height visited, and yields exactly the walk `Walk(lo, hi)` |
| `Streams.Scrape` | src/bitcoin/streams.rs:107-154 | sets `state` to 1; with a given end, yields the entry stream of the walk from `start` to that end; without one, the walk to the node's chain length, or, when the chain length request fails, no entries and that Client error; leaves the position at the last height visited (`end - 1` after a full run, the first failing height otherwise) or untouched when `start >= end` or the end cannot be resolved |
| `TxStream.DecodeRawTxs` | src/bitcoin/tx_stream.rs:31-36 | the delivered transactions are the deserializations of the leading messages; the stream is cut off by, and reports as a Deserialization error, the first message that fails |
| `TxStream.ExpandInputs` | src/bitcoin/tx_stream.rs:51-69 | one item per input, in order; item `i` has the input's key and index `first + i`, cast to u32 |
| `TxStream.TxToItems` | src/bitcoin/tx_stream.rs:48-70 | exactly one item per input, in input order; item `i` is keyed by SHA-256 of input `i`'s encoding and carries index `i` and the unreversed txid |
| `TxStream.ItemStream` | src/bitcoin/tx_stream.rs:41-73 | each delivered batch is the expansion of the corresponding deserialized message; the stream ends as the decoded feed ends |
| `TxStream.PipelinesAgree` | src/bitcoin/tx_stream.rs:50-66 | both pipelines give the same keys and indices; the current one stores the byte reversal of the older one's txid and adds the height tag |

## Left out

- ZMQ subscriptions and the futures combinators `select`, `join`, `then`, `and_then` and `flatten` are not modelled as concurrency. The merged live feed is any interleaving of what each feed delivered (`Streams.Interleaves`). Stream laziness and back-pressure are not modelled.
- The panics on subscription errors (`raw_tx.unwrap()`, `hash_block.unwrap()`, `unreachable!()`) and the broker future are transport concerns and are not modelled.
- SHA-256, `Transaction::deserialize`, `Block::consensus_decode` and prost's encoder/decoder are foreign libraries. They enter the model as function parameters. The only things assumed of them are the 32-byte digest type and the codec round trip.
- `Consensus.ReadTxIn` and `Consensus.ReadCompactSize` are decoders written only to prove that the input encoding is injective. They do not model the library's decoder and do not reject non-minimal CompactSize encodings.
- Db.KeyDB.Put: does not model RocksDB write failures (`Result<(), Error>`), because they come from disk I/O. The insertion loop's `unwrap` of them is left out for the same reason.
- Db.KeyDB.constructor: does not model `DB::open_default` failing or reading an existing directory, because that is file-system I/O. `close` is a drop and is not modelled.
- The sharing of one `KeyDB` across threads (`Arc`) and concurrent writers are left out. Writes are modelled in one sequential order.
- Db.KeyDB.PrefixIter: models a panic of the prefix slice as the error value `SliceOutOfRange`. It models `DbItem::decode(..).unwrap()` through the invariant that every stored value decodes. A corrupted store is not modelled.
- Streams.FetchAnnouncedBlock: reports the height request's error when both requests fail. The `join` in the source reports whichever failure it sees first, which depends on timing.
- Streams.Scrape: models the returned stream polled up to its first error. Under futures 0.1, `and_then` over `iter_ok(start..end)` would go on to the next height after a failed one if polled again, and would move `scrape_position` past the failed height; the model does not capture such polling. It also does not model a consumer that stops early, nor the lock around `STATUS`.
- Streams.MempoolStream, Streams.BlockStream, Streams.Walk, TxStream.DecodeRawTxs and TxStream.ItemStream: each ends the stream at its first error. The futures 0.1 combinators behind them (`then`, `and_then`, `map_err`, `flatten`, `select`) pass an error on as one item and can be polled past it. The model captures what a consumer that stops at the first error sees, as the insertion loop's `for_each` does. It does not capture the items a consumer that kept polling would receive after an error.
- `src/bitcoin/client.rs` (JSON-RPC request building and HTTP) is replaced by the `Streams.Node` parameter.
- `src/settings.rs`, the runtime and HTTP setup in `src/main.rs`, `src/net/mod.rs`, `src/net/errors.rs`, `src/bitcoin/mod.rs`, `src/bitcoin/scraper.rs`, `build.rs` and the Python examples are configuration, transport, stale or unused code. They are not part of this model. This includes the HTTP prefix search, which calls a `get` that `KeyDB` does not define.
- Only script lengths below 2^64 are covered by the encoding round trip, which is always the case for in-memory vectors.

## Findings

| source | as written | input that shows it | evidently intended | confidence | as-written member | corrected member |
|---|---|---|---|---|---|---|
| src/db.rs:34 | `prefix[..start_prefix.len()]` slices each visited key to the prefix's length, which panics when a visited key is shorter than the prefix | a store holding one 32-byte key of `0x01` bytes, searched with a 33-byte prefix of `0x00` bytes: the seek lands on that key and the slice is out of range | a key shorter than the prefix does not match, so the scan stops and returns the (here empty) set of matching items | medium, not executed | `Db.LongPrefixPanics` (on `Db.PrefixScan`) | `Db.PrefixScanChecked` (uses `Db.TakeWhileMatching`) |
