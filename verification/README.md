# Bitcoin header linkage: a Dafny model

This project models the header-linkage core of a small Bitcoin light-client
experiment built on the SP1 zkVM. The model has two parts.

- **The block reader** (`bitcoin/src/block_data.rs`). Block headers arrive as
  JSON-RPC records whose hash-valued fields are in RPC byte order.
  `BlockReader` stores them in a `BTreeMap` keyed by height, and a later
  record at a height overwrites an earlier one. `into_internal` converts a
  record to the internal `BitcoinHeader`: it copies `version`, `time` and
  `nonce`, and byte-reverses `previousblockhash`, `merkleroot` and `bits`.
  `get_block_header` looks up one height. `get_block_headers` lists every
  header in ascending height order. A test walks that list and checks the
  hash chain: each header's `hash_prev_block` must equal the double SHA-256
  of the previous header's bytes.
- **The zkVM guest program** (`program/src/main.rs`). It reads a claimed
  previous-block hash and a serialised header. It computes the header's
  double SHA-256 but never uses it. It commits one boolean: whether bytes
  `[4, 36)` of the header equal the claim.

Modules, in dependency order:

- `Wrappers` (`wrappers.dfy`): `Option` and `Result`.
- `Bytes` (`bytes.dfy`): `u32`, the `Hasher` function type, and `Reverse`
  (`Vec::reverse`) with its involution lemmas.
- `BTreeMap` (`btree_map.dfy`): a `BTreeMap<u32, V>` modelled as its entries
  with strictly ascending keys. `View` gives the plain `map` those entries
  stand for, and iteration visits the entries in list order.
- `BlockData` (`block_data.dfy`): the records, `into_internal`, the reader's
  build loop and the two getters.
- `ZkProgram` (`zk_program.dfy`): the guest program.
- `ChainHash` (`chain_hash.dfy`): the chain-linkage walk of the test, and how
  it connects to the guest program.

SHA-256 and `BitcoinHeader::to_bytes` are function parameters (`Hasher`,
`Serializer`), so every result holds for any hash function and any
serialiser. `to_bytes` is defined in `crate::header`, which is not part of
this model.

Facts about the code that the model keeps as they are:

- Duplicate heights overwrite silently (last record wins); no error is
  raised.
- `into_internal` checks no field lengths; the 32-byte and 4-byte sizes of
  Bitcoin header fields are not enforced. The model proves only that the
  conversion preserves each field's length.
- The guest program compares raw byte ranges and rejects nothing early. It
  does not require an 80-byte header, only the 36 bytes its slice reads.
- `read_block_headers_in_rpc_format` (`bitcoin/src/block_data.rs` line 116)
  has no `#[test]` attribute, unlike the functions at lines 110 and 130, so
  the test harness never runs it. `ReadHeadersInHeightOrder` states, for
  arbitrary records, the ordering and field facts its assertions would
  check.

## Model

| member | source | states |
|---|---|---|
| Bytes.Reverse | bitcoin/src/block_data.rs:75-77 | The result has the input's length, and its element `i` is input element `len-1-i`, exactly what `Vec::reverse` leaves behind |
| Bytes.ReverseInvolutive | bitcoin/src/block_data.rs:73-77 | Reversing a byte field twice restores it, so RPC order and internal order convert back and forth without loss |
| BlockData.IntoInternal | bitcoin/src/block_data.rs:64-80 | The internal header copies `version`, `time` (as `timestamp`) and `nonce`. Its `hashPrevBlock`, `hashMerkleRoot` and `targetBits` are the byte reversals of `previousblockhash`, `merkleroot` and `bits`, with lengths preserved |
| BlockData.CanonicalFormUnique | bitcoin/src/block_data.rs:64-80 | The copy-and-reverse relation determines the internal header uniquely from the record |
| BlockData.IntoInternalRoundTrip | bitcoin/src/block_data.rs:64-80 | Reversing the three fields back to RPC order and restoring `hash`, `confirmations` and `height` gives the original record bit for bit |
| BlockData.FromInternalRoundTrip | bitcoin/src/block_data.rs:64-80 | Every internal header is the conversion of some RPC record: putting one into RPC order and converting back returns it unchanged |
| BlockData.IntoInternalSameExactlyWhen | bitcoin/src/block_data.rs:65-72 | Two records convert to the same internal header if and only if their six header fields agree, so `hash`, `confirmations` and `height` never reach the internal header |
| BTreeMap.Insert | bitcoin/src/block_data.rs:59 | `insert` makes the stored map equal to the old map with `k` bound to `v`, overwriting any earlier value, and the keys stay strictly ascending. The entry count grows by one exactly when `k` was absent |
| BTreeMap.Empty | bitcoin/src/block_data.rs:57 | `BTreeMap::new()` holds no key at all |
| BTreeMap.Get | bitcoin/src/block_data.rs:83 | `get` returns `Some` exactly when the key is stored, and then returns the stored value |
| BTreeMap.MapValues | bitcoin/src/block_data.rs:95-99 | Mapping over `iter()` keeps every key in its position, applies the function to each value, and leaves the key set unchanged |
| BTreeMap.ViewDeterminesEntries | bitcoin/src/block_data.rs:38-39 | The map's contents determine the ascending entry list, so the iteration order is fixed by the heights stored |
| BlockData.InsertAll | bitcoin/src/block_data.rs:57-61 | After the insertion loop the key set equals the set of input heights. For every height, the stored record is the last input record with that height |
| BlockData.StoredRecordIsLast | bitcoin/src/block_data.rs:57-61 | Every stored record is an input record at its height with no later record at that height, so later records overwrite earlier ones |
| BlockData.DistinctHeightsKeepAll | bitcoin/src/block_data.rs:57-61 | With pairwise distinct heights nothing is lost: one entry per record, each under its own height |
| BlockData.NewFromJson | bitcoin/src/block_data.rs:55-62 | A document that does not decode gives, and is the only thing that gives, the JSON error. Otherwise the reader's key set is the input heights and the last record of each height is stored |
| BlockData.GetBlockHeader | bitcoin/src/block_data.rs:82-91 | The result is `Ok` if and only if the height is stored, and any error is `BlockReaderError`. An `Ok` value is the copy-and-reverse form of the stored record |
| BlockData.LookupStored | bitcoin/src/block_data.rs:82-88 | Looking up a stored height yields exactly the conversion of the record stored there |
| BlockData.GetBlockHeaders | bitcoin/src/block_data.rs:94-102 | Never fails. It returns one pair per stored height, heights strictly increasing, and each pair equals what `get_block_header` returns for that height |
| BlockData.GetBlockHeadersDetermined | bitcoin/src/block_data.rs:94-102 | Any strictly ascending list holding exactly the stored heights, each paired with its `get_block_header` result, is the list `get_block_headers` returns |
| BlockData.ReadHeadersInHeightOrder | bitcoin/src/block_data.rs:116-127 | Records read at heights 838639, 838637, 838638 come back at positions 0, 1, 2 as heights 838637, 838638, 838639, each with its own record's fields (including `nonce`) |
| ChainHash.BlockHash | bitcoin/src/block_data.rs:138-139 | Definition: a header's block hash is SHA-256 applied twice to its `to_bytes` serialisation, the value the walk carries forward as `prev_hash` |
| ChainHash.LinkAt | bitcoin/src/block_data.rs:133-139 | Definition: header `i` is linked when its `hash_prev_block` equals the block hash of header `i - 1`, the equality `assert_eq!` checks at line 136 for every header after the first |
| ChainHash.Linked | bitcoin/src/block_data.rs:130-141 | Definition: every header after the first is linked to its predecessor, the condition under which the test passes |
| ChainHash.VerifyChainHash | bitcoin/src/block_data.rs:130-141 | The walk seeded with the first header's own `hash_prev_block` reports no break if and only if every header carries the double SHA-256 of its predecessor's bytes. A reported break is the first failing position, which is never position 0 |
| ChainHash.ShortChainsLinked | bitcoin/src/block_data.rs:130-141 | Lists of zero or one header are linked |
| ChainHash.AlteredHeaderBreaksNextLink | bitcoin/src/block_data.rs:130-141 | Altering a header so that its block hash changes, while keeping its own previous-hash field, keeps every link up to it and breaks the link of its successor |
| ChainHash.LinkedHeaderCommitsTrue | program/src/main.rs:15-25 | If `to_bytes` places the previous-block hash at bytes `[4, 36)`, the guest commits `true` when given a header of a linked chain and the block hash of the header before it |
| ChainHash.CommitsTrueMeansLinked | program/src/main.rs:15-25 | The converse: under the same layout, if the guest commits `true` for a header with a 32-byte previous-hash field and the block hash of the header before it, the link holds |
| ChainHash.LinkedIffGuestAcceptsAll | program/src/main.rs:15-25 | Under that layout and with 32-byte previous-hash fields, a header list is linked if and only if the guest commits `true` for every header paired with its predecessor's block hash |
| ZkProgram.HashIsValid | program/src/main.rs:15-21 | The committed value is true if and only if the claim is 32 bytes long and equals header bytes `[4, 36)` byte for byte |
| ZkProgram.Run | program/src/main.rs:12-25 | The guest commits, rather than panics, exactly when two inputs are present and the header has at least 36 bytes. It then commits exactly one boolean, true if and only if header bytes `[4, 36)` equal the claim |
| ZkProgram.WrongLengthNeverValid | program/src/main.rs:15-21 | A claim that is not 32 bytes long is always rejected |
| ZkProgram.OnlyPrevHashBytesMatter | program/src/main.rs:15-21 | Headers that agree on bytes `[4, 36)` give the same result, whatever `[0, 4)` and `[36, ..)` hold |
| ZkProgram.ChangedPrevHashByteRejected | program/src/main.rs:15-21 | Starting from an accepted pair, changing any single byte in `[4, 36)` makes the header rejected |
| ZkProgram.DigestDoesNotMatter | program/src/main.rs:18-21 | The hash function, and with it the computed double SHA-256 digest, has no influence on the committed value |

## Left out

- JSON and hex decoding (`serde`, `serde_json`, `hex`; `bitcoin/src/block_data.rs` lines 20-35, 47 and 56) is not modelled. `NewFromJson` takes the decoding outcome: `None` for a document that does not decode, otherwise the list of records.
- `new_from_file` is file I/O, and `TEST_DATA_PATH` is a fixed local path. The file's insertion loop (lines 48-51) is the same as `new_from_json`'s and is modelled by `InsertAll`.
- SHA-256 internals are not modelled; the hash function is the `Hasher` parameter.
- `BitcoinHeader::to_bytes` is defined in `crate::header`, which is not part of this model. It is the `Serializer` parameter. Its 80-byte layout is not modelled; `PrevHashAtOffset4` states the one layout fact `LinkedHeaderCommitsTrue` needs, as a hypothesis.
- `sp1_zkvm::io::read` and `sp1_zkvm::io::commit` become the `stdin` parameter and the `Execution` result of `Run`. The zkVM's proof generation is outside the model.
- The unimplemented difficulty check (`program/src/main.rs` line 23) has no behaviour to model.
- `script/src/bin/prove.rs` is prover and verifier setup around the SP1 SDK and is not modelled. That includes its `headers.len() < 2` guard, which is followed by an index of `headers[2]`.
- The nonce constants asserted at lines 113, 121 and 125 (3878033683, 4255188596) come from a data file. `ReadHeadersInHeightOrder` instead states, for arbitrary records, that each listed header carries its own record's `nonce`.
- VerifyChainHash: for an empty list it reports no break, where the test would panic when it reads `headers[0]` to seed `prev_hash`.
- VerifyChainHash: it returns the position of the first break, where the test panics in `assert_eq!`. The break's height and both hash values can be read off the list at that position.
- `Box<dyn Error>` is modelled as the two-case `Error` datatype: `JsonError` stands for any decoding failure and `BlockReaderError` for a missing height.
