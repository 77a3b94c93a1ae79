/** `bitcoin/src/block_data.rs`: block headers as returned by Bitcoin's
    JSON-RPC interface, their conversion to the internal header layout, and
    the `BlockReader` store that keys them by height. */
module BlockData {
  import opened Wrappers
  import opened Bytes
  import opened BTreeMap

  /** One header record as decoded from JSON-RPC output. Hash-valued fields
      (`hash`, `merkleroot`, `bits`, `previousblockhash`) are in RPC byte
      order, the reverse of the order used on the wire. */
  datatype BlockHeaderRpc = BlockHeaderRpc(
    hash: seq<bv8>,
    confirmations: u32,
    height: u32,
    version: u32,
    merkleroot: seq<bv8>,
    time: u32,
    nonce: u32,
    bits: seq<bv8>,
    previousblockhash: seq<bv8>)

  /** The internal header (`crate::header::BitcoinHeader`), with its byte
      fields in internal byte order. */
  datatype BitcoinHeader = BitcoinHeader(
    version: u32,
    hashPrevBlock: seq<bv8>,
    hashMerkleRoot: seq<bv8>,
    timestamp: u32,
    targetBits: seq<bv8>,
    nonce: u32)

  /** The errors the reader can surface: a JSON document that does not decode
      to a list of records, and `BlockReaderError` for a missing height. */
  datatype Error = JsonError | BlockReaderError

  /** `BlockReader`: the records keyed by height in a `BTreeMap`. */
  datatype BlockReader = BlockReader(headersRpc: OrderedMap<BlockHeaderRpc>)

  /** `hdr` is the internal form of `rec`: the numeric fields are copied and
      the three hash-valued fields are byte-reversed. */
  ghost predicate Canonicalises(rec: BlockHeaderRpc, hdr: BitcoinHeader)
  {
    && hdr.version == rec.version
    && hdr.timestamp == rec.time
    && hdr.nonce == rec.nonce
    && IsReversal(rec.previousblockhash, hdr.hashPrevBlock)
    && IsReversal(rec.merkleroot, hdr.hashMerkleRoot)
    && IsReversal(rec.bits, hdr.targetBits)
  }

  /** `into_internal`: converts an RPC record to the internal layout. */
  function IntoInternal(header: BlockHeaderRpc): (r: BitcoinHeader)
    ensures Canonicalises(header, r)
  {
    BitcoinHeader(
      version := header.version,
      hashPrevBlock := Reverse(header.previousblockhash),
      hashMerkleRoot := Reverse(header.merkleroot),
      timestamp := header.time,
      targetBits := Reverse(header.bits),
      nonce := header.nonce)
  }

  /** The inverse of `IntoInternal`: restores RPC byte order; the three
      bookkeeping fields the internal header does not carry are supplied. */
  function FromInternal(hdr: BitcoinHeader, hash: seq<bv8>, confirmations: u32, height: u32): (r: BlockHeaderRpc)
    ensures Canonicalises(r, hdr)
  {
    ReversalSymmetric(hdr.hashPrevBlock, Reverse(hdr.hashPrevBlock));
    ReversalSymmetric(hdr.hashMerkleRoot, Reverse(hdr.hashMerkleRoot));
    ReversalSymmetric(hdr.targetBits, Reverse(hdr.targetBits));
    BlockHeaderRpc(
      hash := hash,
      confirmations := confirmations,
      height := height,
      version := hdr.version,
      merkleroot := Reverse(hdr.hashMerkleRoot),
      time := hdr.timestamp,
      nonce := hdr.nonce,
      bits := Reverse(hdr.targetBits),
      previousblockhash := Reverse(hdr.hashPrevBlock))
  }

  /** A record has exactly one internal form. */
  lemma CanonicalFormUnique(rec: BlockHeaderRpc, a: BitcoinHeader, b: BitcoinHeader)
    requires Canonicalises(rec, a) && Canonicalises(rec, b)
    ensures a == b
  {
    ReversalUnique(rec.previousblockhash, a.hashPrevBlock, b.hashPrevBlock);
    ReversalUnique(rec.merkleroot, a.hashMerkleRoot, b.hashMerkleRoot);
    ReversalUnique(rec.bits, a.targetBits, b.targetBits);
  }

  /** Converting to the internal layout and back restores the RPC record. */
  lemma IntoInternalRoundTrip(rec: BlockHeaderRpc)
    ensures FromInternal(IntoInternal(rec), rec.hash, rec.confirmations, rec.height) == rec
  {
    var hdr := IntoInternal(rec);
    var back := FromInternal(hdr, rec.hash, rec.confirmations, rec.height);
    ReversalSymmetric(back.previousblockhash, hdr.hashPrevBlock);
    ReversalUnique(hdr.hashPrevBlock, rec.previousblockhash, back.previousblockhash);
    ReversalSymmetric(back.merkleroot, hdr.hashMerkleRoot);
    ReversalUnique(hdr.hashMerkleRoot, rec.merkleroot, back.merkleroot);
    ReversalSymmetric(back.bits, hdr.targetBits);
    ReversalUnique(hdr.targetBits, rec.bits, back.bits);
  }

  /** Converting an internal header to RPC order and back restores it. */
  lemma FromInternalRoundTrip(hdr: BitcoinHeader, hash: seq<bv8>, confirmations: u32, height: u32)
    ensures IntoInternal(FromInternal(hdr, hash, confirmations, height)) == hdr
  {
    var rec := FromInternal(hdr, hash, confirmations, height);
    CanonicalFormUnique(rec, IntoInternal(rec), hdr);
  }

  /** The six header fields of two records agree; `hash`, `confirmations`
      and `height` are not compared. */
  ghost predicate SameHeaderFields(a: BlockHeaderRpc, b: BlockHeaderRpc)
  {
    && a.version == b.version
    && a.merkleroot == b.merkleroot
    && a.time == b.time
    && a.nonce == b.nonce
    && a.bits == b.bits
    && a.previousblockhash == b.previousblockhash
  }

  /** Two records have the same internal form exactly when their six header
      fields agree: `hash`, `confirmations` and `height` do not reach the
      internal header, and nothing else is lost. */
  lemma IntoInternalSameExactlyWhen(a: BlockHeaderRpc, b: BlockHeaderRpc)
    ensures IntoInternal(a) == IntoInternal(b) <==> SameHeaderFields(a, b)
  {
    if IntoInternal(a) == IntoInternal(b) {
      IntoInternalRoundTrip(a);
      IntoInternalRoundTrip(b);
    }
  }

  /** The heights occurring in a list of records. */
  ghost function Heights(records: seq<BlockHeaderRpc>): set<u32>
  {
    set i | 0 <= i < |records| :: records[i].height
  }

  /** `records[i]` is the last record in the list with its height. */
  ghost predicate LastOfHeight(records: seq<BlockHeaderRpc>, i: int)
    requires 0 <= i < |records|
  {
    forall j :: i < j < |records| ==> records[j].height != records[i].height
  }

  /** The map built by inserting every record under its height, in list
      order: the loop body of `new_from_json` and `new_from_file`. */
  function InsertAll(records: seq<BlockHeaderRpc>): (m: OrderedMap<BlockHeaderRpc>)
    ensures View(m).Keys == Heights(records)
    ensures forall i :: 0 <= i < |records| && LastOfHeight(records, i) ==> View(m)[records[i].height] == records[i]
  {
    if |records| == 0 then Empty()
    else
      var n := |records| - 1;
      var prev := InsertAll(records[..n]);
      var m := Insert(prev, records[n].height, records[n]);
      InsertLast(records, records[..n], View(prev), View(m));
      m
  }

  /** One step of `InsertAll`: inserting the last record into the map built
      from the others. */
  lemma InsertLast(records: seq<BlockHeaderRpc>, prefix: seq<BlockHeaderRpc>, prev: map<u32, BlockHeaderRpc>, m: map<u32, BlockHeaderRpc>)
    requires |records| != 0 && prefix == records[..|records| - 1]
    requires prev.Keys == Heights(prefix)
    requires forall i :: 0 <= i < |prefix| && LastOfHeight(prefix, i) ==> prev[prefix[i].height] == prefix[i]
    requires m == prev[records[|records| - 1].height := records[|records| - 1]]
    ensures m.Keys == Heights(records)
    ensures forall i :: 0 <= i < |records| && LastOfHeight(records, i) ==> m[records[i].height] == records[i]
  {
    HeightsSnoc(records, prefix);
    var n := |records| - 1;
    forall i | 0 <= i < |records| && LastOfHeight(records, i)
      ensures records[i].height in m && m[records[i].height] == records[i]
    {
      HeightMember(records, i);
      if i < n {
        assert records[n].height != records[i].height;
        LastInPrefix(records, prefix, i);
        HeightMember(prefix, i);
      }
    }
  }

  /** Each record's height is among the list's heights. */
  lemma HeightMember(records: seq<BlockHeaderRpc>, i: int)
    requires 0 <= i < |records|
    ensures records[i].height in Heights(records)
  {
  }

  /** The last record of its height stays last in a prefix that contains it. */
  lemma LastInPrefix(records: seq<BlockHeaderRpc>, prefix: seq<BlockHeaderRpc>, i: int)
    requires 0 <= i < |prefix| <= |records| && prefix == records[..|prefix|]
    requires LastOfHeight(records, i)
    ensures prefix[i] == records[i] && LastOfHeight(prefix, i)
  {
    forall j | i < j < |prefix|
      ensures prefix[j].height != prefix[i].height
    {
      assert prefix[j] == records[j];
    }
  }

  /** The heights of a list are those of all but its last record, plus the last one's. */
  lemma HeightsSnoc(records: seq<BlockHeaderRpc>, prefix: seq<BlockHeaderRpc>)
    requires |records| != 0 && prefix == records[..|records| - 1]
    ensures Heights(records) == Heights(prefix) + {records[|records| - 1].height}
  {
    var n := |records| - 1;
    forall h | h in Heights(records)
      ensures h in Heights(prefix) + {records[n].height}
    {
      var i :| 0 <= i < |records| && records[i].height == h;
      if i < n {
        assert prefix[i].height == h;
      }
    }
    forall h | h in Heights(prefix)
      ensures h in Heights(records)
    {
      var i :| 0 <= i < |prefix| && prefix[i].height == h;
      assert records[i].height == h;
    }
  }

  /** Every stored record is the last record in the list with its height:
      a later record at the same height overwrites an earlier one. */
  lemma StoredRecordIsLast(records: seq<BlockHeaderRpc>, h: u32)
    requires h in Heights(records)
    ensures exists i :: 0 <= i < |records| && records[i].height == h && LastOfHeight(records, i)
                        && View(InsertAll(records))[h] == records[i]
  {
    var i := LastIndexOf(records, h);
  }

  /** The position of the last record at height `h`. */
  lemma {:induction false} LastIndexOf(records: seq<BlockHeaderRpc>, h: u32) returns (i: nat)
    requires h in Heights(records)
    ensures i < |records| && records[i].height == h && LastOfHeight(records, i)
  {
    var n := |records| - 1;
    if records[n].height == h {
      i := n;
    } else {
      var prefix := records[..n];
      var k :| 0 <= k < |records| && records[k].height == h;
      assert k != n;
      assert prefix[k].height == h;
      i := LastIndexOf(prefix, h);
      assert records[i] == prefix[i];
      forall j | i < j < |records|
        ensures records[j].height != h
      {
        if j < n {
          assert records[j] == prefix[j];
        }
      }
    }
  }

  /** With pairwise distinct heights nothing is overwritten: the store holds
      one entry per record, each under its own height. */
  lemma {:induction false} DistinctHeightsKeepAll(records: seq<BlockHeaderRpc>)
    requires forall i, j :: 0 <= i < j < |records| ==> records[i].height != records[j].height
    ensures |InsertAll(records)| == |records|
    ensures forall i :: 0 <= i < |records| ==> View(InsertAll(records))[records[i].height] == records[i]
  {
    if |records| != 0 {
      var n := |records| - 1;
      var prefix := records[..n];
      DistinctHeightsKeepAll(prefix);
      assert records[n].height !in Heights(prefix);
      assert forall i :: 0 <= i < |records| ==> LastOfHeight(records, i);
    }
  }

  /** `new_from_json` once `serde_json` has run: `None` stands for a document
      that did not decode to a list of records. The loop inserts every record
      under its height. */
  method NewFromJson(parsed: Option<seq<BlockHeaderRpc>>) returns (r: Result<BlockReader, Error>)
    ensures parsed.None? <==> r == Err(JsonError)
    ensures parsed.Some? ==> r.Ok? && View(r.value.headersRpc).Keys == Heights(parsed.value)
    ensures parsed.Some? ==> forall i :: 0 <= i < |parsed.value| && LastOfHeight(parsed.value, i) ==>
      View(r.value.headersRpc)[parsed.value[i].height] == parsed.value[i]
  {
    if parsed.None? {
      return Err(JsonError);
    }
    var headers := parsed.value;
    var headersRpc: OrderedMap<BlockHeaderRpc> := Empty();
    for i := 0 to |headers|
      invariant headersRpc == InsertAll(headers[..i])
    {
      assert headers[..i + 1][..i] == headers[..i];
      headersRpc := Insert(headersRpc, headers[i].height, headers[i]);
    }
    assert headers[..|headers|] == headers;
    return Ok(BlockReader(headersRpc));
  }

  /** `get_block_header`: the internal form of the record stored at `height`,
      or `BlockReaderError` when there is none. */
  function GetBlockHeader(reader: BlockReader, height: u32): (r: Result<BitcoinHeader, Error>)
    ensures r.Ok? <==> height in View(reader.headersRpc)
    ensures r.Err? ==> r.error == BlockReaderError
    ensures r.Ok? ==> Canonicalises(View(reader.headersRpc)[height], r.value)
  {
    match Get(reader.headersRpc, height)
    case Some(header) => Ok(IntoInternal(header))
    case None => Err(BlockReaderError)
  }

  /** `get_block_headers`: every stored header with its height, in the
      ascending order of `BTreeMap::iter`. It never fails. */
  function GetBlockHeaders(reader: BlockReader): (r: Result<seq<(u32, BitcoinHeader)>, Error>)
    ensures r.Ok? && |r.value| == |reader.headersRpc|
    ensures StrictlySorted(r.value)
    ensures View(r.value).Keys == View(reader.headersRpc).Keys
    ensures forall i :: 0 <= i < |r.value| ==> GetBlockHeader(reader, r.value[i].0) == Ok(r.value[i].1)
  {
    var hs := MapValues(reader.headersRpc, IntoInternal);
    EntriesAgreeWithLookup(reader);
    Ok(hs)
  }

  /** Looking up a stored height yields the internal form of its record. */
  lemma LookupStored(reader: BlockReader, height: u32)
    requires height in View(reader.headersRpc)
    ensures GetBlockHeader(reader, height) == Ok(IntoInternal(View(reader.headersRpc)[height]))
  {
    var rec := View(reader.headersRpc)[height];
    CanonicalFormUnique(rec, GetBlockHeader(reader, height).value, IntoInternal(rec));
  }

  /** Each entry of the store, looked up by its height, gives back the
      internal form of its own record. */
  lemma EntriesAgreeWithLookup(reader: BlockReader)
    ensures forall i :: 0 <= i < |reader.headersRpc| ==>
      GetBlockHeader(reader, reader.headersRpc[i].0) == Ok(IntoInternal(reader.headersRpc[i].1))
  {
    var m := reader.headersRpc;
    forall i | 0 <= i < |m|
      ensures GetBlockHeader(reader, m[i].0) == Ok(IntoInternal(m[i].1))
    {
      LookupStored(reader, m[i].0);
    }
  }

  /** A list whose entries agree with `get_block_header` denotes the map
      from each of its heights to the internal form of the stored record. */
  lemma AgreeingListView(reader: BlockReader, hs: seq<(u32, BitcoinHeader)>)
    requires forall i :: 0 <= i < |hs| ==> GetBlockHeader(reader, hs[i].0) == Ok(hs[i].1)
    ensures forall k :: k in View(hs) ==> k in View(reader.headersRpc)
    ensures StrictlySorted(hs) ==>
      forall k :: k in View(hs) ==> View(hs)[k] == IntoInternal(View(reader.headersRpc)[k])
  {
    forall k | k in View(hs)
      ensures k in View(reader.headersRpc)
      ensures StrictlySorted(hs) ==> View(hs)[k] == IntoInternal(View(reader.headersRpc)[k])
    {
      var i :| 0 <= i < |hs| && hs[i].0 == k;
      LookupStored(reader, k);
    }
  }

  /** The contract of `get_block_headers` pins its result down: any
      height-ordered list holding exactly the stored heights, each paired
      with what `get_block_header` returns for it, is that result. */
  lemma GetBlockHeadersDetermined(reader: BlockReader, hs: OrderedMap<BitcoinHeader>)
    requires View(hs).Keys == View(reader.headersRpc).Keys
    requires forall i :: 0 <= i < |hs| ==> GetBlockHeader(reader, hs[i].0) == Ok(hs[i].1)
    ensures hs == GetBlockHeaders(reader).value
  {
    var all: OrderedMap<BitcoinHeader> := GetBlockHeaders(reader).value;
    AgreeingListView(reader, hs);
    AgreeingListView(reader, all);
    SameMaps(View(hs), View(all));
    ViewDeterminesEntries(hs, all);
  }

  /** Extensionality for maps, spelled out. */
  lemma SameMaps<V>(a: map<u32, V>, b: map<u32, V>)
    requires a.Keys == b.Keys
    requires forall k :: k in a ==> a[k] == b[k]
    ensures a == b
  {
  }

  /** Records read at heights 838639, 838637 and 838638, in that order, come
      back from `get_block_headers` at heights 838637, 838638, 838639, each
      with its own record's internal form. */
  lemma ReadHeadersInHeightOrder(a: BlockHeaderRpc, b: BlockHeaderRpc, c: BlockHeaderRpc)
    requires a.height == 838639 && b.height == 838637 && c.height == 838638
    ensures GetBlockHeaders(BlockReader(InsertAll([a, b, c]))).value
         == [(838637, IntoInternal(b)), (838638, IntoInternal(c)), (838639, IntoInternal(a))]
  {
    var reader := BlockReader(InsertAll([a, b, c]));
    StoreOfThree(a, b, c);
    ListOfThree(reader, b, c, a);
  }

  /** Three records with distinct heights are all kept, each under its height. */
  lemma StoreOfThree(a: BlockHeaderRpc, b: BlockHeaderRpc, c: BlockHeaderRpc)
    requires a.height != b.height && b.height != c.height && a.height != c.height
    ensures View(InsertAll([a, b, c])).Keys == {a.height, b.height, c.height}
    ensures View(InsertAll([a, b, c]))[a.height] == a
    ensures View(InsertAll([a, b, c]))[b.height] == b
    ensures View(InsertAll([a, b, c]))[c.height] == c
  {
    var records := [a, b, c];
    assert records[0] == a && records[1] == b && records[2] == c;
    forall i, j | 0 <= i < j < |records|
      ensures records[i].height != records[j].height
    {
    }
    DistinctHeightsKeepAll(records);
    HeightsOfThree(a, b, c);
  }

  /** A store holding three records at ascending heights lists them in that order. */
  lemma ListOfThree(reader: BlockReader, x: BlockHeaderRpc, y: BlockHeaderRpc, z: BlockHeaderRpc)
    requires x.height < y.height < z.height
    requires View(reader.headersRpc).Keys == {x.height, y.height, z.height}
    requires View(reader.headersRpc)[x.height] == x
    requires View(reader.headersRpc)[y.height] == y
    requires View(reader.headersRpc)[z.height] == z
    ensures GetBlockHeaders(reader).value
         == [(x.height, IntoInternal(x)), (y.height, IntoInternal(y)), (z.height, IntoInternal(z))]
  {
    var listed := [(x.height, IntoInternal(x)), (y.height, IntoInternal(y)), (z.height, IntoInternal(z))];
    SortedThree(listed);
    var expected: OrderedMap<BitcoinHeader> := listed;
    KeysOfThree(expected);
    forall i | 0 <= i < 3
      ensures GetBlockHeader(reader, expected[i].0) == Ok(expected[i].1)
    {
      var rec := if i == 0 then x else if i == 1 then y else z;
      assert expected[i] == (rec.height, IntoInternal(rec));
      LookupStored(reader, rec.height);
    }
    GetBlockHeadersDetermined(reader, expected);
  }

  /** Three entries with ascending keys form an ordered map. */
  lemma SortedThree<V>(s: seq<(u32, V)>)
    requires |s| == 3 && s[0].0 < s[1].0 < s[2].0
    ensures StrictlySorted(s)
  {
  }

  /** The heights of a three-record list. */
  lemma HeightsOfThree(a: BlockHeaderRpc, b: BlockHeaderRpc, c: BlockHeaderRpc)
    ensures Heights([a, b, c]) == {a.height, b.height, c.height}
  {
    var records := [a, b, c];
    forall h | h in Heights(records)
      ensures h in {a.height, b.height, c.height}
    {
      var i :| 0 <= i < 3 && records[i].height == h;
    }
    assert records[0].height in Heights(records);
    assert records[1].height in Heights(records);
    assert records[2].height in Heights(records);
  }

  /** The keys of a three-entry list. */
  lemma KeysOfThree<V>(s: seq<(u32, V)>)
    requires |s| == 3
    ensures View(s).Keys == {s[0].0, s[1].0, s[2].0}
  {
    forall k | k in View(s)
      ensures k in {s[0].0, s[1].0, s[2].0}
    {
      var i :| 0 <= i < 3 && s[i].0 == k;
    }
  }
}
