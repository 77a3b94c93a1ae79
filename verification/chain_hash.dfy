/** Chain linkage over the headers `get_block_headers` returns: each header's
    `hashPrevBlock` is the block hash (double SHA-256 of `to_bytes`) of the
    header before it in height order. SHA-256 and `BitcoinHeader::to_bytes`
    (whose byte layout lives outside the modelled code) are parameters. */
module ChainHash {
  import opened Wrappers
  import opened Bytes
  import opened BlockData
  import ZkProgram

  /** `BitcoinHeader::to_bytes`. */
  type Serializer = BitcoinHeader -> seq<bv8>

  /** The block hash of a header: SHA-256 applied twice to its bytes. */
  function BlockHash(sha: Hasher, toBytes: Serializer, header: BitcoinHeader): seq<bv8>
  {
    sha(sha(toBytes(header)))
  }

  /** Header `i` records the block hash of header `i - 1`. */
  ghost predicate LinkAt(sha: Hasher, toBytes: Serializer, headers: seq<(u32, BitcoinHeader)>, i: int)
    requires 0 < i < |headers|
  {
    headers[i].1.hashPrevBlock == BlockHash(sha, toBytes, headers[i - 1].1)
  }

  /** Every consecutive pair of headers is linked. */
  ghost predicate Linked(sha: Hasher, toBytes: Serializer, headers: seq<(u32, BitcoinHeader)>)
  {
    forall i :: 0 < i < |headers| ==> LinkAt(sha, toBytes, headers, i)
  }

  /** The walk of `read_block_headers_verify_chain_hash`: `prev` starts at
      the first header's own `hashPrevBlock`, each header must carry `prev`,
      and `prev` then becomes that header's block hash. Returns the position
      of the first header that breaks the chain, or `None`. */
  method VerifyChainHash(sha: Hasher, toBytes: Serializer, headers: seq<(u32, BitcoinHeader)>)
    returns (broken: Option<nat>)
    ensures broken.None? <==> Linked(sha, toBytes, headers)
    ensures broken.Some? ==> 0 < broken.value < |headers| && !LinkAt(sha, toBytes, headers, broken.value)
    ensures broken.Some? ==> forall j :: 0 < j < broken.value ==> LinkAt(sha, toBytes, headers, j)
  {
    if |headers| == 0 {
      return None;
    }
    var prevHash := headers[0].1.hashPrevBlock;
    for i := 0 to |headers|
      invariant forall j :: 0 < j < i ==> LinkAt(sha, toBytes, headers, j)
      invariant i == 0 ==> prevHash == headers[0].1.hashPrevBlock
      invariant i > 0 ==> prevHash == BlockHash(sha, toBytes, headers[i - 1].1)
    {
      if headers[i].1.hashPrevBlock != prevHash {
        assert !LinkAt(sha, toBytes, headers, i);
        return Some(i);
      }
      var headerBytes := toBytes(headers[i].1);
      prevHash := sha(sha(headerBytes));
    }
    return None;
  }

  /** Lists of zero or one header are linked. */
  lemma ShortChainsLinked(sha: Hasher, toBytes: Serializer, headers: seq<(u32, BitcoinHeader)>)
    requires |headers| <= 1
    ensures Linked(sha, toBytes, headers)
  {
  }

  /** Replacing header `i` of a linked list by one with the same
      `hashPrevBlock` but a different block hash keeps every link up to `i`
      and breaks the link at `i + 1`: the break shows at the successor, not
      at the altered header. */
  lemma AlteredHeaderBreaksNextLink(sha: Hasher, toBytes: Serializer, headers: seq<(u32, BitcoinHeader)>,
                                    i: nat, altered: BitcoinHeader, changed: seq<(u32, BitcoinHeader)>)
    requires Linked(sha, toBytes, headers) && i + 1 < |headers|
    requires altered.hashPrevBlock == headers[i].1.hashPrevBlock
    requires BlockHash(sha, toBytes, altered) != BlockHash(sha, toBytes, headers[i].1)
    requires changed == headers[i := (headers[i].0, altered)]
    ensures forall j :: 0 < j <= i ==> LinkAt(sha, toBytes, changed, j)
    ensures !LinkAt(sha, toBytes, changed, i + 1)
    ensures !Linked(sha, toBytes, changed)
  {
    assert LinkAt(sha, toBytes, headers, i + 1);
    forall j | 0 < j <= i
      ensures LinkAt(sha, toBytes, changed, j)
    {
      assert LinkAt(sha, toBytes, headers, j);
    }
  }

  /** `to_bytes` puts a 32-byte previous-block hash at bytes [4, 36): the
      Bitcoin header layout (4-byte version, then the previous-block hash).
      A hypothesis about the serialiser, not a fact this model proves. */
  ghost predicate PrevHashAtOffset4(toBytes: Serializer)
  {
    forall h: BitcoinHeader :: |h.hashPrevBlock| == 32 ==>
      |toBytes(h)| >= ZkProgram.PrevHashEnd
      && toBytes(h)[ZkProgram.PrevHashStart..ZkProgram.PrevHashEnd] == h.hashPrevBlock
  }

  /** Given that layout, the guest program commits `true` when it is fed a
      header of a linked list together with the block hash of the header
      before it. */
  lemma LinkedHeaderCommitsTrue(sha: Hasher, toBytes: Serializer, headers: seq<(u32, BitcoinHeader)>, i: nat)
    requires PrevHashAtOffset4(toBytes)
    requires Linked(sha, toBytes, headers) && 0 < i < |headers|
    requires |headers[i].1.hashPrevBlock| == 32
    ensures ZkProgram.Run(sha, [BlockHash(sha, toBytes, headers[i - 1].1), toBytes(headers[i].1)])
         == ZkProgram.Committed([true])
  {
    assert LinkAt(sha, toBytes, headers, i);
  }

  /** The converse: given that layout, if the guest commits `true` for
      header `i` and the block hash of header `i - 1`, the link at `i`
      holds. */
  lemma CommitsTrueMeansLinked(sha: Hasher, toBytes: Serializer, headers: seq<(u32, BitcoinHeader)>, i: nat)
    requires PrevHashAtOffset4(toBytes)
    requires 0 < i < |headers| && |headers[i].1.hashPrevBlock| == 32
    requires ZkProgram.Run(sha, [BlockHash(sha, toBytes, headers[i - 1].1), toBytes(headers[i].1)])
          == ZkProgram.Committed([true])
    ensures LinkAt(sha, toBytes, headers, i)
  {
    var stdin := [BlockHash(sha, toBytes, headers[i - 1].1), toBytes(headers[i].1)];
    assert stdin[1][ZkProgram.PrevHashStart..ZkProgram.PrevHashEnd] == stdin[0];
  }

  /** Given that layout and 32-byte previous-hash fields, a list is linked
      exactly when the guest commits `true` for every header paired with the
      block hash of the header before it. */
  lemma {:induction false} LinkedIffGuestAcceptsAll(sha: Hasher, toBytes: Serializer, headers: seq<(u32, BitcoinHeader)>)
    requires PrevHashAtOffset4(toBytes)
    requires forall i :: 0 <= i < |headers| ==> |headers[i].1.hashPrevBlock| == 32
    ensures Linked(sha, toBytes, headers) <==>
      forall i :: 0 < i < |headers| ==>
        ZkProgram.Run(sha, [BlockHash(sha, toBytes, headers[i - 1].1), toBytes(headers[i].1)])
          == ZkProgram.Committed([true])
  {
    if Linked(sha, toBytes, headers) {
      forall i | 0 < i < |headers|
        ensures ZkProgram.Run(sha, [BlockHash(sha, toBytes, headers[i - 1].1), toBytes(headers[i].1)])
             == ZkProgram.Committed([true])
      {
        LinkedHeaderCommitsTrue(sha, toBytes, headers, i);
      }
    }
    if forall i :: 0 < i < |headers| ==>
         ZkProgram.Run(sha, [BlockHash(sha, toBytes, headers[i - 1].1), toBytes(headers[i].1)])
           == ZkProgram.Committed([true]) {
      forall i | 0 < i < |headers|
        ensures LinkAt(sha, toBytes, headers, i)
      {
        CommitsTrueMeansLinked(sha, toBytes, headers, i);
      }
    }
  }
}
