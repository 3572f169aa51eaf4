/** The index store (`KeyDB`): a RocksDB handle holding protobuf-encoded
    `DbItem`s under raw byte keys, written by upserts and read by a forward
    prefix scan with a height filter. */
module Db {
  import opened Wrappers
  import opened Bytes
  import opened Lex
  import opened Models

  /** The panic of `prefix[..start_prefix.len()]` when the store yields a
      key shorter than the prefix. */
  datatype ScanError = SliceOutOfRange

  // ---------------------------------------------------------------------
  // The scan, as a pipeline over the store's keys in iteration order.
  // ---------------------------------------------------------------------

  /** `IteratorMode::From(prefix, Forward)`: the position of the first key
      at or after `p`. */
  function Seek(ks: seq<Key>, p: Key): (i: nat)
    ensures i <= |ks|
    ensures forall j :: 0 <= j < i ==> !LexLe(p, ks[j])
    ensures i < |ks| ==> LexLe(p, ks[i])
  {
    if ks == [] then 0 else if LexLe(p, ks[0]) then 0 else 1 + Seek(ks[1..], p)
  }

  /** `take_while(|(k, _)| k[..p.len()] == p[..])`: the longest run of keys
      from the front that start with `p`; the slice panics on a key shorter
      than `p` that the run reaches. */
  function TakeWhilePrefix(ks: seq<Key>, p: Key): (r: Result<seq<Key>, ScanError>)
    ensures r.Ok? ==> |r.value| <= |ks| && r.value == ks[..|r.value|]
    ensures r.Ok? ==> forall j :: 0 <= j < |r.value| ==> HasPrefix(p, r.value[j])
    ensures r.Ok? && |r.value| < |ks| ==> !HasPrefix(p, ks[|r.value|])
    ensures r.Err? ==> exists i :: 0 <= i < |ks| && |ks[i]| < |p|
    ensures (forall j :: 0 <= j < |ks| ==> |ks[j]| >= |p|) ==> r.Ok?
  {
    if ks == [] then Ok([])
    else if |ks[0]| < |p| then Err(SliceOutOfRange)
    else if ks[0][..|p|] == p then
      match TakeWhilePrefix(ks[1..], p)
      case Ok(rest) => Ok([ks[0]] + rest)
      case Err(e) => Err(e)
    else Ok([])
  }

  /** The keys the iterator of lines 31-34 hands on: seek, then take while
      the prefix matches. */
  function ScanKeys(ks: seq<Key>, p: Key): (r: Result<seq<Key>, ScanError>)
    ensures r.Ok? ==> && Seek(ks, p) + |r.value| <= |ks|
                      && r.value == ks[Seek(ks, p)..Seek(ks, p) + |r.value|]
    ensures r.Ok? ==> forall j :: 0 <= j < |r.value| ==> HasPrefix(p, r.value[j])
    ensures r.Ok? && Seek(ks, p) + |r.value| < |ks| ==> !HasPrefix(p, ks[Seek(ks, p) + |r.value|])
    ensures (forall j :: 0 <= j < |ks| ==> |ks[j]| >= |p|) ==> r.Ok?
  {
    TakeWhilePrefix(ks[Seek(ks, p)..], p)
  }

  /** `DbItem::decode(..).unwrap()` on each visited key's value. */
  function Lookup(ks: seq<Key>, items: map<Key, DbItem>): (r: seq<DbItem>)
    requires forall k :: k in ks ==> k in items
    ensures |r| == |ks|
    ensures forall j :: 0 <= j < |ks| ==> r[j] == items[ks[j]]
  {
    if ks == [] then [] else [items[ks[0]]] + Lookup(ks[1..], items)
  }

  /** Whether an item passes the height filter of prefix_iter. */
  predicate InInterval(interval: Option<BlockInterval>, height: u32)
  {
    match interval
    case None => height == 0
    case Some(iv) => if iv.end == 0 then height >= iv.start else height >= iv.start && height <= iv.end
  }

  /** The `filter(..)` stage of prefix_iter, one closure per case. */
  function FilterHeight(xs: seq<DbItem>, interval: Option<BlockInterval>): (r: seq<DbItem>)
    ensures |r| <= |xs|
    ensures interval.None? ==>
              forall x :: x in r <==> x in xs && x.blockHeight == 0
    ensures interval.Some? && interval.value.end == 0 ==>
              forall x :: x in r <==> x in xs && x.blockHeight >= interval.value.start
    ensures interval.Some? && interval.value.end > 0 ==>
              forall x :: x in r <==> x in xs && interval.value.start <= x.blockHeight <= interval.value.end
    ensures |xs| == 1 ==> r == (if InInterval(interval, xs[0].blockHeight) then xs else [])
  {
    if xs == [] then []
    else
      var rest := FilterHeight(xs[1..], interval);
      assert forall x :: x in xs <==> x == xs[0] || x in xs[1..];
      if InInterval(interval, xs[0].blockHeight) then [xs[0]] + rest else rest
  }

  /** The filter distributes over concatenation. With the one-item case of
      `FilterHeight`, this fixes the result completely: the kept items stay in
      their input order, and each occurrence of an item is kept or dropped
      on its own, so duplicates are kept as often as they occur. */
  lemma {:induction false} FilterHeightAppend(a: seq<DbItem>, b: seq<DbItem>, interval: Option<BlockInterval>)
    ensures FilterHeight(a + b, interval) == FilterHeight(a, interval) + FilterHeight(b, interval)
    decreases |a|
  {
    if a == [] {
      assert a + b == b;
    } else {
      assert (a + b)[1..] == a[1..] + b;
      FilterHeightAppend(a[1..], b, interval);
    }
  }

  /** `KeyDB::prefix_iter` over the keys in iteration order and the decoded
      values. */
  function PrefixScan(ks: seq<Key>, items: map<Key, DbItem>, p: Key, interval: Option<BlockInterval>)
    : (r: Result<seq<DbItem>, ScanError>)
    requires forall k :: k in ks ==> k in items
    ensures Sorted(ks) && r.Ok? ==> r.value == FilterHeight(Lookup(FilterPrefix(ks, p), items), interval)
    ensures (forall j :: 0 <= j < |ks| ==> |ks[j]| >= |p|) ==> r.Ok?
  {
    match ScanKeys(ks, p)
    case Err(e) => Err(e)
    case Ok(hits) =>
      ScanIsPrefixFilter(ks, p);
      Ok(FilterHeight(Lookup(hits, items), interval))
  }

  // ---------------------------------------------------------------------
  // Reference definition of the scan and the proof that the seek and
  // take-while compute it on a sorted store.
  // ---------------------------------------------------------------------

  /** Every key of `ks` that starts with `p`, in the order of `ks`. */
  function FilterPrefix(ks: seq<Key>, p: Key): (r: seq<Key>)
    ensures forall k :: k in r <==> k in ks && HasPrefix(p, k)
  {
    if ks == [] then []
    else
      var rest := FilterPrefix(ks[1..], p);
      assert forall k :: k in ks <==> k == ks[0] || k in ks[1..];
      if HasPrefix(p, ks[0]) then [ks[0]] + rest else rest
  }

  lemma {:induction false} FilterPrefixNone(ks: seq<Key>, p: Key)
    requires forall j :: 0 <= j < |ks| ==> !HasPrefix(p, ks[j])
    ensures FilterPrefix(ks, p) == []
  {
    if ks != [] { FilterPrefixNone(ks[1..], p); }
  }

  /** Keys before the seek position sort below `p`, so none of them can
      start with `p`. */
  lemma {:induction false} SeekSkipsNoMatch(ks: seq<Key>, p: Key)
    ensures FilterPrefix(ks[Seek(ks, p)..], p) == FilterPrefix(ks, p)
  {
    if ks != [] && !LexLe(p, ks[0]) {
      SeekSkipsNoMatch(ks[1..], p);
      assert ks[Seek(ks, p)..] == ks[1..][Seek(ks[1..], p)..];
    }
  }

  /** Taking keys while they start with `p`, with a test that cannot panic:
      a key shorter than `p` simply does not match. */
  function TakeWhileMatching(ks: seq<Key>, p: Key): (r: seq<Key>)
    ensures |r| <= |ks| && r == ks[..|r|]
    ensures forall j :: 0 <= j < |r| ==> HasPrefix(p, r[j])
    ensures |r| < |ks| ==> !HasPrefix(p, ks[|r|])
  {
    if ks == [] then [] else if HasPrefix(p, ks[0]) then [ks[0]] + TakeWhileMatching(ks[1..], p) else []
  }

  /** The slice in the source panics exactly when the key at which the run
      stops is shorter than `p`; otherwise it computes the same run as the
      panic-free test. */
  lemma {:induction false} TakeWhileAsWritten(ks: seq<Key>, p: Key)
    ensures TakeWhilePrefix(ks, p).Ok? ==> TakeWhilePrefix(ks, p).value == TakeWhileMatching(ks, p)
    ensures TakeWhilePrefix(ks, p).Err? <==>
              |TakeWhileMatching(ks, p)| < |ks| && |ks[|TakeWhileMatching(ks, p)|]| < |p|
  {
    if ks != [] && |ks[0]| >= |p| && ks[0][..|p|] == p {
      TakeWhileAsWritten(ks[1..], p);
    }
  }

  /** On a sorted run of keys at or after `p`, taking while the prefix matches
      finds every key that starts with `p`: once one key fails the test,
      none after it can pass. */
  lemma {:induction false} TakeWhileIsFilter(ts: seq<Key>, p: Key)
    requires Sorted(ts)
    requires forall j :: 0 <= j < |ts| ==> LexLe(p, ts[j])
    ensures TakeWhileMatching(ts, p) == FilterPrefix(ts, p)
  {
    if ts != [] {
      if HasPrefix(p, ts[0]) {
        TakeWhileIsFilter(ts[1..], p);
      } else {
        assert HasPrefix(p, p);
        forall j | 0 <= j < |ts| ensures !HasPrefix(p, ts[j]) {
          if j > 0 && HasPrefix(p, ts[j]) {
            PrefixContiguous(p, p, ts[0], ts[j]);
          }
        }
        FilterPrefixNone(ts, p);
      }
    }
  }

  /** On a sorted store, every key at or after the seek position sorts at or
      after `p`, and filtering from there loses nothing. */
  lemma SeekSuffix(ks: seq<Key>, p: Key)
    requires Sorted(ks)
    ensures Sorted(ks[Seek(ks, p)..])
    ensures forall j :: Seek(ks, p) <= j < |ks| ==> LexLe(p, ks[j])
    ensures TakeWhileMatching(ks[Seek(ks, p)..], p) == FilterPrefix(ks, p)
  {
    var s := Seek(ks, p);
    forall j | s < j < |ks| ensures LexLe(p, ks[j]) {
      LexLeTransitive(p, ks[s], ks[j]);
    }
    TakeWhileIsFilter(ks[s..], p);
    SeekSkipsNoMatch(ks, p);
  }

  /** Take-while from the seek position equals filtering by prefix, on a
      sorted store. */
  lemma ScanIsPrefixFilter(ks: seq<Key>, p: Key)
    ensures Sorted(ks) && ScanKeys(ks, p).Ok? ==> ScanKeys(ks, p).value == FilterPrefix(ks, p)
  {
    if Sorted(ks) {
      SeekSuffix(ks, p);
      TakeWhileAsWritten(ks[Seek(ks, p)..], p);
    }
  }

  /** The scan with the panic-free prefix test: on a sorted store it returns
      every matching item, whatever the prefix length. */
  function PrefixScanChecked(ks: seq<Key>, items: map<Key, DbItem>, p: Key, interval: Option<BlockInterval>)
    : (r: seq<DbItem>)
    requires forall k :: k in ks ==> k in items
    ensures Sorted(ks) ==> r == FilterHeight(Lookup(FilterPrefix(ks, p), items), interval)
  {
    var run := TakeWhileMatching(ks[Seek(ks, p)..], p);
    assert Sorted(ks) ==> run == FilterPrefix(ks, p) by {
      if Sorted(ks) { SeekSuffix(ks, p); }
    }
    FilterHeight(Lookup(run, items), interval)
  }

  /** A prefix longer than the stored keys makes the scan panic: one stored
      32-byte key and a 33-byte prefix that sorts before it. Nothing in the
      store starts with that prefix, so the intended answer is empty. */
  lemma LongPrefixPanics()
    ensures var k: Key := seq(32, _ => 1);
            var p: Key := seq(33, _ => 0);
            var items := map[k := DbItem(0, [], 0)];
            && Sorted([k])
            && PrefixScan([k], items, p, None).Err?
            && PrefixScanChecked([k], items, p, None) == []
  {
    var k: Key := seq(32, _ => 1);
    var p: Key := seq(33, _ => 0);
    assert LexLe(p, k);
    assert !HasPrefix(p, k);
  }

  /** An item is returned exactly when it is the value of a stored key that
      starts with `p` and its height passes the filter. */
  lemma PrefixScanMembers(ks: seq<Key>, items: map<Key, DbItem>, p: Key, interval: Option<BlockInterval>, x: DbItem)
    requires forall k :: k in ks ==> k in items
    requires Sorted(ks)
    requires PrefixScan(ks, items, p, interval).Ok?
    ensures x in PrefixScan(ks, items, p, interval).value <==>
              InInterval(interval, x.blockHeight) &&
              exists k :: k in ks && HasPrefix(p, k) && items[k] == x
  {
    var found := Lookup(FilterPrefix(ks, p), items);
    assert PrefixScan(ks, items, p, interval).value == FilterHeight(found, interval);
    LookupPrefixMembers(ks, items, p, x);
  }

  /** An item is looked up for a prefix exactly when some stored key with
      that prefix holds it. */
  lemma LookupPrefixMembers(ks: seq<Key>, items: map<Key, DbItem>, p: Key, x: DbItem)
    requires forall k :: k in ks ==> k in items
    ensures x in Lookup(FilterPrefix(ks, p), items) <==> exists k :: k in ks && HasPrefix(p, k) && items[k] == x
  {
    var hits := FilterPrefix(ks, p);
    var found := Lookup(hits, items);
    if x in found {
      var j :| 0 <= j < |found| && found[j] == x;
      assert hits[j] in hits;
    }
    if exists k :: k in ks && HasPrefix(p, k) && items[k] == x {
      var k :| k in ks && HasPrefix(p, k) && items[k] == x;
      var j :| 0 <= j < |hits| && hits[j] == k;
      assert found[j] == x;
    }
  }

  /** On a sorted store the scan visits a contiguous run of keys beginning at
      the first key at or after `p`. */
  lemma ScanKeysContiguous(ks: seq<Key>, p: Key)
    requires Sorted(ks)
    requires ScanKeys(ks, p).Ok?
    ensures var hits := ScanKeys(ks, p).value;
            Seek(ks, p) + |hits| <= |ks| &&
            hits == ks[Seek(ks, p)..Seek(ks, p) + |hits|] &&
            Sorted(hits)
  {
    var s := Seek(ks, p);
    var hits := ScanKeys(ks, p).value;
    assert hits == ks[s..][..|hits|];
  }

  // ---------------------------------------------------------------------
  // Upserts.
  // ---------------------------------------------------------------------

  /** The store after writing the pairs one after another. */
  function ApplyPuts<K, V>(m: map<K, V>, pairs: seq<(K, V)>): map<K, V>
    decreases |pairs|
  {
    if pairs == [] then m else ApplyPuts(m[pairs[0].0 := pairs[0].1], pairs[1..])
  }

  /** After a run of writes, the stored keys are the old ones plus every
      key written. */
  lemma {:induction false} ApplyPutsKeys<K, V>(m: map<K, V>, pairs: seq<(K, V)>, k: K)
    ensures k in ApplyPuts(m, pairs) <==> k in m || exists j :: 0 <= j < |pairs| && pairs[j].0 == k
    decreases |pairs|
  {
    if pairs != [] {
      ApplyPutsKeys(m[pairs[0].0 := pairs[0].1], pairs[1..], k);
      if exists j :: 0 <= j < |pairs| && pairs[j].0 == k {
        var j :| 0 <= j < |pairs| && pairs[j].0 == k;
        if j > 0 { assert pairs[1..][j - 1].0 == k; }
      }
    }
  }

  /** A key no pair writes keeps its value. */
  lemma {:induction false} ApplyPutsUntouched<K, V>(m: map<K, V>, pairs: seq<(K, V)>, k: K)
    requires k in m
    requires forall j :: 0 <= j < |pairs| ==> pairs[j].0 != k
    ensures k in ApplyPuts(m, pairs) && ApplyPuts(m, pairs)[k] == m[k]
    decreases |pairs|
  {
    if pairs != [] {
      assert pairs[0].0 != k;
      ApplyPutsUntouched(m[pairs[0].0 := pairs[0].1], pairs[1..], k);
    }
  }

  /** Last write wins: a key ends up holding the value of the last pair that
      writes it. */
  lemma {:induction false} ApplyPutsLastWins<K, V>(m: map<K, V>, pairs: seq<(K, V)>, j: nat)
    requires j < |pairs|
    requires forall i :: j < i < |pairs| ==> pairs[i].0 != pairs[j].0
    ensures pairs[j].0 in ApplyPuts(m, pairs) && ApplyPuts(m, pairs)[pairs[j].0] == pairs[j].1
    decreases |pairs|
  {
    var m' := m[pairs[0].0 := pairs[0].1];
    if j == 0 {
      ApplyPutsUntouched(m', pairs[1..], pairs[0].0);
    } else {
      ApplyPutsLastWins(m', pairs[1..], j - 1);
    }
  }

  lemma {:induction false} LastWriter<K, V>(pairs: seq<(K, V)>, k: K) returns (j: nat)
    requires exists i :: 0 <= i < |pairs| && pairs[i].0 == k
    ensures j < |pairs| && pairs[j].0 == k
    ensures forall i :: j < i < |pairs| ==> pairs[i].0 != k
    decreases |pairs|
  {
    var n := |pairs| - 1;
    if pairs[n].0 == k {
      j := n;
    } else {
      var i :| 0 <= i < |pairs| && pairs[i].0 == k;
      assert pairs[..n][i].0 == k;
      j := LastWriter(pairs[..n], k);
    }
  }

  /** Replaying a batch of writes (a feed message delivered twice) leaves the
      store as one delivery did. */
  lemma ReplayIsIdempotent<K, V>(m: map<K, V>, pairs: seq<(K, V)>)
    ensures ApplyPuts(ApplyPuts(m, pairs), pairs) == ApplyPuts(m, pairs)
  {
    var once := ApplyPuts(m, pairs);
    var twice := ApplyPuts(once, pairs);
    forall k | k in twice ensures k in once {
      ApplyPutsKeys(m, pairs, k);
      ApplyPutsKeys(once, pairs, k);
    }
    forall k | k in once ensures k in twice {
      ApplyPutsKeys(once, pairs, k);
    }
    forall k | k in once ensures twice[k] == once[k] {
      if exists i :: 0 <= i < |pairs| && pairs[i].0 == k {
        var j := LastWriter(pairs, k);
        ApplyPutsLastWins(m, pairs, j);
        ApplyPutsLastWins(once, pairs, j);
      } else {
        ApplyPutsUntouched(once, pairs, k);
      }
    }
    assert twice.Keys == once.Keys;
  }

  // ---------------------------------------------------------------------
  // The store handle.
  // ---------------------------------------------------------------------

  /** prost's `encode`/`decode` for `DbItem`, supplied by the library. */
  datatype ItemCodec = ItemCodec(encode: DbItem -> seq<byte>, decode: seq<byte> -> Option<DbItem>)

  /** The codec's contract: decoding an encoded item gives it back. */
  ghost predicate RoundTrips(codec: ItemCodec)
  {
    forall x :: codec.decode(codec.encode(x)) == Some(x)
  }

  function EncodePairs(codec: ItemCodec, pairs: seq<(Key, DbItem)>): (r: seq<(Key, seq<byte>)>)
    ensures |r| == |pairs|
    ensures forall j :: 0 <= j < |pairs| ==> r[j] == (pairs[j].0, codec.encode(pairs[j].1))
  {
    if pairs == [] then [] else [(pairs[0].0, codec.encode(pairs[0].1))] + EncodePairs(codec, pairs[1..])
  }

  class KeyDB {
    const codec: ItemCodec
    /** The RocksDB contents: key bytes to encoded item bytes. */
    var store: map<Key, seq<byte>>

    /** Every stored value was written by `put`, so it decodes. */
    ghost predicate Valid()
      reads this
    {
      RoundTrips(codec) && forall k :: k in store ==> codec.decode(store[k]).Some?
    }

    /** The decoded view of the store. */
    ghost function Items(): (m: map<Key, DbItem>)
      reads this
      requires Valid()
      ensures m.Keys == store.Keys
      ensures forall k :: k in store ==> codec.decode(store[k]) == Some(m[k])
    {
      map k | k in store :: codec.decode(store[k]).value
    }

    /** Opening a database whose contents were written through this codec. */
    constructor (codec: ItemCodec, contents: map<Key, DbItem>)
      requires RoundTrips(codec)
      ensures Valid() && this.codec == codec && Items() == contents
    {
      this.codec := codec;
      store := map k | k in contents :: codec.encode(contents[k]);
    }

    /** `KeyDB::put`: encode the item and upsert it under `hash`. */
    method Put(hash: Key, item: DbItem)
      requires Valid()
      modifies this
      ensures Valid()
      ensures store == old(store)[hash := codec.encode(item)]
      ensures Items() == old(Items())[hash := item]
    {
      store := store[hash := codec.encode(item)];
    }

    /** The insertion loop: put every pair of a batch, in order. */
    method PutAll(pairs: seq<(Key, DbItem)>)
      requires Valid()
      modifies this
      ensures Valid()
      ensures store == ApplyPuts(old(store), EncodePairs(codec, pairs))
      ensures Items() == ApplyPuts(old(Items()), pairs)
    {
      var i := 0;
      while i < |pairs|
        invariant 0 <= i <= |pairs|
        invariant Valid()
        invariant ApplyPuts(store, EncodePairs(codec, pairs[i..])) == ApplyPuts(old(store), EncodePairs(codec, pairs))
        invariant ApplyPuts(Items(), pairs[i..]) == ApplyPuts(old(Items()), pairs)
      {
        assert pairs[i..][1..] == pairs[i + 1..];
        assert EncodePairs(codec, pairs[i..])[1..] == EncodePairs(codec, pairs[i + 1..]);
        Put(pairs[i].0, pairs[i].1);
        i := i + 1;
      }
      assert pairs[i..] == [];
    }

    /** `KeyDB::prefix_iter` on the current contents. */
    ghost function PrefixIter(p: Key, interval: Option<BlockInterval>): (r: Result<seq<DbItem>, ScanError>)
      reads this
      requires Valid()
      ensures r.Ok? ==> r.value == FilterHeight(Lookup(FilterPrefix(SortedKeys(store.Keys), p), Items()), interval)
      ensures (forall k :: k in store ==> |k| >= |p|) ==> r.Ok?
    {
      var ks := SortedKeys(store.Keys);
      assert forall j :: 0 <= j < |ks| ==> ks[j] in store;
      PrefixScan(ks, Items(), p, interval)
    }
  }
}
