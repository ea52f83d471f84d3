# Stegos core: byte utilities, view-change collection, Kademlia bookkeeping

A Dafny model of three pieces of the Stegos node:

- **Byte-vector utilities** of the crypto crate (`crypto/src/utils/mod.rs`).
  This covers reading hex strings into big- and little-endian byte buffers and
  writing bytes as lowercase hex. It also covers printing bits, the all-zero
  and all-one tests, unsigned comparison of big- and little-endian vectors, and
  logical right shifts by any number of bits (`byte_utils.dfy`, module
  `ByteUtils`).
- **The view-change vote collector** of the optimistic consensus
  (`consensus/src/optimistic.rs`). It accepts at most one signed vote per
  validator of the epoch and sums the voting slots of the validators heard
  from. Once those slots make a supermajority it hands out a proof and starts
  over (`optimistic.dfy`, module `Optimistic`).
- **The table bookkeeping of the Kademlia behaviour**
  (`network/src/kad/behaviour.rs`). This covers the query-id counter and the
  queue of queries to start, the provider lists and the keys the node provides
  itself, the flush of learnt providers in `poll`, and the connected-peer and
  pending-RPC lists. It also covers `gen_random_hash`, which builds an id
  that keeps `my_id` above its last `bucket_num + 1` bits, so its distance to
  `my_id` is below `2^(bucket_num + 1)` (`kad_behaviour.dfy`, module
  `KadBehaviour`).

`wrappers.dfy` holds `Option` and `Result`; `seqs.dfy` (module `Seqs`) holds the first-index search the other modules share.

Bytes are `bv8`. Slices the source only reads are `seq<bv8>`; slices it writes
(`&mut [u8]`) are `array<bv8>`, and the methods that fill them keep the
source's loops. `ViewChangeCollector` and `Kademlia` are classes whose methods
update their fields in place, as the Rust structs are.

Some parts are inputs rather than code:
- Hashing, signing, signature checking and `check_supermajority` are fields of
  a `Crypto` value passed in, about which nothing is assumed.
- The blockchain is the record of its accessor values.
- The random bytes of `gen_random_hash` are a parameter.

The shift functions, the zero/one tests and the big-endian hex reader were proved against their evidently
intended meaning. That showed five places where the code as written does
something else (see "Findings"). The model keeps both: the as-written
functions, with a concrete input that shows the difference, and corrected
definitions, which carry the proved properties.

## Model

| member | source | states |
|---|---|---|
| ByteUtils.HexDecode | crypto/src/utils/mod.rs:39 | `hex::decode` succeeds exactly on an even number of hex digits and gives half as many bytes; an odd length is `OddLength` |
| ByteUtils.DecodePairs | crypto/src/utils/mod.rs:39 | decoding digit pairs succeeds iff every character is a hex digit; on failure it names the first bad character and its index |
| ByteUtils.HexEncodeDigits | crypto/src/utils/mod.rs:83-90 | the encoding is lowercase hex digits only, byte `k` giving characters `2k` and `2k+1` |
| ByteUtils.HexRoundTrip | crypto/src/utils/mod.rs:39 | decoding the hex encoding of any bytes gives the bytes back |
| ByteUtils.PadOdd | crypto/src/utils/mod.rs:34-38 | an odd-length string gets one leading '0'; the result has even length and ends with the input |
| ByteUtils.DecodePadded | crypto/src/utils/mod.rs:34-39 | reading a hex string of any length succeeds iff all its characters are hex digits, giving `(len+1)/2` bytes; a failure is an invalid-character error |
| ByteUtils.HexStrToBev | crypto/src/utils/mod.rs:32-54 | the buffer becomes the decoded bytes followed by zeros; a decode error or a too-short buffer returns the error and leaves the buffer untouched |
| ByteUtils.HexStrToLev | crypto/src/utils/mod.rs:56-81 | the buffer becomes the decoded bytes reversed followed by zeros, with result `Ok(true)`; errors leave the buffer untouched |
| ByteUtils.FillLev | crypto/src/utils/mod.rs:70-79 | the two loops fill the buffer from the top down: zeros for the missing bytes, then the bytes in order, so it holds the bytes reversed followed by zeros |
| ByteUtils.U8vToHexStr | crypto/src/utils/mod.rs:83-90 | the loop builds exactly the lowercase two-digits-per-byte encoding |
| ByteUtils.HexBufferRoundTrip | crypto/src/utils/mod.rs:32-90 | writing bytes as hex and reading them back with `hexstr_to_bev_u8` into a buffer of the same size restores the bytes |
| ByteUtils.HexReadersKeepValue | crypto/src/utils/mod.rs:32-81 | the bytes written first (the decoded bytes) read big-endian, and the whole little-endian buffer read little-endian, are the number the hex string denotes; a longer big-endian buffer denotes the number times 256 per padding byte, so it differs from the number unless that is 0 (see BevPaddingScales) |
| ByteUtils.BevPaddingScales | crypto/src/utils/mod.rs:32-54 | as written, each zero byte padded after the decoded bytes multiplies the big-endian buffer's value by 256 |
| ByteUtils.BevPaddingCounterexample | crypto/src/utils/mod.rs:32-54 | "1" read into a two-byte buffer becomes [0x01, 0x00], which denotes 256, not 1 |
| ByteUtils.BevFill | crypto/src/utils/mod.rs:32-54 | corrected fill: the decoded bytes at the least significant end behind leading zeros, denoting the same number as the bytes |
| ByteUtils.BevFillKeepsValue | crypto/src/utils/mod.rs:32-54 | the corrected big-endian buffer denotes the number the hex string denotes, for every buffer size that fits |
| ByteUtils.DecodePairsValue | crypto/src/utils/mod.rs:39 | the decoded bytes read big-endian are the number the hex digits denote |
| ByteUtils.LeValueIsReversedBe | crypto/src/utils/mod.rs:56-81 | a little-endian vector denotes what its reversal denotes big-endian |
| ByteUtils.BeValueBound | crypto/src/utils/mod.rs:126-135 | `n` bytes denote a number below `256^n` |
| ByteUtils.UcmpBe | crypto/src/utils/mod.rs:126-135 | the comparison is `Equal` exactly when the common prefix of the two vectors agrees |
| ByteUtils.UcmpLeBelow | crypto/src/utils/mod.rs:137-146 | scanning from the top of the common part, `Equal` exactly when the bytes agree below the starting index |
| ByteUtils.UcmpLe | crypto/src/utils/mod.rs:137-146 | the comparison is `Equal` exactly when the common prefix agrees |
| ByteUtils.UcmpBeCommonPrefix | crypto/src/utils/mod.rs:126-135 | the zip truncates: only the common prefix decides |
| ByteUtils.UcmpBeOrdersValues | crypto/src/utils/mod.rs:126-135 | on vectors of equal length, Less, Equal and Greater are exactly the order of the numbers they denote big-endian |
| ByteUtils.UcmpLeIsReversedBe | crypto/src/utils/mod.rs:137-146 | `ucmp_le` on the common part is `ucmp_be` on the reversals |
| ByteUtils.UcmpLeOrdersValues | crypto/src/utils/mod.rs:137-146 | on vectors of equal length, the result is exactly the order of the numbers they denote little-endian |
| ByteUtils.BitTest | crypto/src/utils/mod.rs:100 | `data & (1 << bit) != 0` tests bit `bit`, least significant first |
| ByteUtils.PrintNbits | crypto/src/utils/mod.rs:92-106 | the output is '[', then bit `i` of the little-endian vector as '0'/'1' for each `i < nbits`, then ']' |
| ByteUtils.FoldZeroBits | crypto/src/utils/mod.rs:108-115 | the fold ignores its accumulator, so its result is the test of the last byte alone |
| ByteUtils.IsZeroBits | crypto/src/utils/mod.rs:108-115 | as written: true iff the slice is non-empty and its last byte is 0x00 |
| ByteUtils.FoldOneBits | crypto/src/utils/mod.rs:117-124 | the fold ignores its accumulator, so its result is the test of the last byte alone |
| ByteUtils.IsOneBits | crypto/src/utils/mod.rs:117-124 | as written: true iff the slice is non-empty and its last byte is 0xff |
| ByteUtils.AllZeroBits | crypto/src/utils/mod.rs:108-115 | corrected: true iff the slice is non-empty and every byte is 0x00 |
| ByteUtils.AllOneBits | crypto/src/utils/mod.rs:117-124 | corrected: true iff the slice is non-empty and every byte is 0xff |
| ByteUtils.ZeroOneBitsCounterexample | crypto/src/utils/mod.rs:108-124 | the as-written tests accept every all-zero (all-one) slice, and also [0x01, 0x00] ([0x00, 0xff]), which is not one |
| ByteUtils.MsbShifted | crypto/src/utils/mod.rs:166-167 | a bit of a shifted byte comes from the byte itself or from the carry of its left neighbour |
| ByteUtils.LsbShifted | crypto/src/utils/mod.rs:189-190 | a bit of a shifted byte comes from the byte itself or from the carry of its upper neighbour |
| ByteUtils.BeShiftBits | crypto/src/utils/mod.rs:148-169 | zero leading bytes followed by the shifted bytes make the big-endian vector shifted right by `nsh` bits |
| ByteUtils.LeShiftBits | crypto/src/utils/mod.rs:171-192 | shifted bytes followed by zero top bytes make the little-endian vector shifted right by `nsh` bits |
| ByteUtils.UshrBe | crypto/src/utils/mod.rs:148-169 | corrected `ushr_be`: the first `min(nsh/8, len)` bytes become 0 and bit `i` of `dst` is bit `i - nsh` of `src` (0 below `nsh`) |
| ByteUtils.UshrLe | crypto/src/utils/mod.rs:171-192 | corrected `ushr_le`: the top `min(nsh/8, len)` bytes become 0 and bit `i` of `dst` is bit `i + nsh` of `src` (0 past the end) |
| ByteUtils.CarryOutAsWritten | crypto/src/utils/mod.rs:160-167 | `x << (8 - nbits)` on a `u8` as a release build runs it: the intended carry when `nbits != 0`, but the whole byte when `nbits == 0` |
| ByteUtils.UshrBeAsWritten | crypto/src/utils/mod.rs:148-169 | `ushr_be` as a release build runs it: `dst` has the length of `src` and its first `min(nsh/8, len)` bytes are 0; the neighbour carry is `CarryOutAsWritten` |
| ByteUtils.UshrLeAsWritten | crypto/src/utils/mod.rs:171-192 | `ushr_le` as a release build runs it: `dst` has the length of `src` and its top `min(nsh/8, len)` bytes are 0; the neighbour carry is `CarryOutAsWritten` |
| ByteUtils.UshrAsWrittenOffByteBoundary | crypto/src/utils/mod.rs:148-192 | as written, both shifts are right whenever `nsh` is not a multiple of 8 |
| ByteUtils.UshrAsWrittenByteAlignedCounterexample | crypto/src/utils/mod.rs:148-192 | as written, a shift by 0 bits turns [0x01, 0x02] into [0x01, 0x03] big-endian and [0x03, 0x02] little-endian |
| Optimistic.ChainOf | consensus/src/optimistic.rs:190 | `ChainInfo::from_blockchain`: the chain point is the blockchain's height, last block hash and view-change counter, the three values a vote is checked against |
| Optimistic.NewViewChangeMessage | consensus/src/optimistic.rs:57-65 | a vote carries the chain point and validator id given, and the signature of the chain point's hash |
| Optimistic.Validate | consensus/src/optimistic.rs:68-79 | an id outside the validator list is `InvalidValidatorId` whatever the signature; otherwise the result is `Ok` exactly when the signature checks against that validator's key |
| Optimistic.CheckMessage | consensus/src/optimistic.rs:124-146 | height, then last block, then view-change counter, then `validate`, each failure with its own error; a vote passes iff it is about the current chain point and validates |
| Optimistic.CountedSlotsEmpty | consensus/src/optimistic.rs:230-233 | with no votes, the sum of counted slots is 0 |
| Optimistic.CountedSlotsInsert | consensus/src/optimistic.rs:153-156 | counting one more validator adds exactly its slots to the sum |
| Optimistic.CountedSlotsSameBelow | consensus/src/optimistic.rs:153-156 | the sum depends only on which listed validators were counted |
| Optimistic.Recorded | consensus/src/optimistic.rs:153-156 | a validator's first vote is added; a later vote leaves the map as it is |
| Optimistic.RecordedKeepsTally | consensus/src/optimistic.rs:153-156 | recording a vote keeps `collected_slots` equal to the sum of the slots of the validators who voted |
| Optimistic.ProofOf | consensus/src/optimistic.rs:164-168 | the proof holds the signature of every counted validator, by id |
| Optimistic.FindValidator | consensus/src/optimistic.rs:210-215 | the index of the first validator holding the key, or none when no validator holds it |
| Optimistic.ProofChecks | consensus/src/optimistic.rs:163-169 | a proof built from votes filed under their own ids that each pass the checks holds, for every id, a signature of the current chain point's hash that checks against that listed validator's key |
| Optimistic.OwnVoteAccepted | consensus/src/optimistic.rs:183-192 | a validator's own timeout vote passes every check at the same chain point when its key pair signs correctly |
| Optimistic.ViewChangeCollector.constructor | consensus/src/optimistic.rs:97-111 | a new collector has no votes, no slots, and the id `on_new_consensus` finds |
| Optimistic.ViewChangeCollector.IsValidator | consensus/src/optimistic.rs:225-227 | a node is a validator exactly when it holds a validator id; after `on_new_consensus` (and on creation) exactly when its key is in the epoch's validator list |
| Optimistic.ViewChangeCollector.Reset | consensus/src/optimistic.rs:230-233 | no votes and 0 slots, the id kept; the slot invariant then holds for every validator list |
| Optimistic.ViewChangeCollector.HandleMessage | consensus/src/optimistic.rs:115-173 | a non-validator returns `Ok(None)` unchanged; a failed check returns its error unchanged; a valid vote is recorded once per validator; a supermajority returns the proof and resets; the slot invariant is kept, and so is `VotesValid` (every kept vote is about the current chain point and validates, as the field comment at optimistic.rs:85-86 says), so a returned proof holds only signatures that check |
| Optimistic.ViewChangeCollector.Record | consensus/src/optimistic.rs:153-156 | a checked vote is kept and its validator's slots added unless that validator was already counted (`Recorded`, `RecordedSlots`); both the slot invariant and `VotesValid` are kept |
| Optimistic.ViewChangeCollector.HandleTimeout | consensus/src/optimistic.rs:176-193 | none for a non-validator, otherwise the node's own signed vote for the current chain point; nothing changes |
| Optimistic.ViewChangeCollector.OnNewPaymentBlock | consensus/src/optimistic.rs:199-205 | a validator forgets its votes; a non-validator changes nothing |
| Optimistic.ViewChangeCollector.OnNewConsensus | consensus/src/optimistic.rs:208-219 | votes forgotten and the id set to the first validator holding this node's key, or none |
| Seqs.FirstIndex | network/src/kad/behaviour.rs:388 | the first index whose element satisfies the predicate, none iff no element does; the one search behind `position` and `enumerate().find` |
| KadBehaviour.Position | network/src/kad/behaviour.rs:388 | `position`: the first index holding the element, none iff it is absent |
| KadBehaviour.RemoveAtNoDup | network/src/kad/behaviour.rs:388-391 | removing one entry of a list without repeats removes that element entirely and keeps every other |
| KadBehaviour.PendingPosition | network/src/kad/behaviour.rs:435 | the first pending RPC for the node, none iff there is none |
| KadBehaviour.FlushedNoDup | network/src/kad/behaviour.rs:682-695 | the flush creates no repeated entry in any provider list |
| KadBehaviour.FlushedProviders | network/src/kad/behaviour.rs:682-695 | the flush never adds the local node, drops no provider or key, and adds every recorded provider other than the local node |
| KadBehaviour.RandomHashRefuses | network/src/kad/behaviour.rs:908-915 | a bucket is refused exactly when `bucket_num + 1 > 8 * (len - 2)`; an accepted id has the input's length |
| KadBehaviour.MaskKeepsBit | network/src/kad/behaviour.rs:924-926 | masking keeps every bit of the pivot byte above the random low bits |
| KadBehaviour.RandomHashKeepsHighBits | network/src/kad/behaviour.rs:917-935 | an accepted id keeps the two header bytes and every bit of `my_id` except the last `bucket_num + 1`, so its distance to `my_id` is below `2^(bucket_num + 1)`; no lower bound is promised |
| KadBehaviour.RandomHashMayBeOwnId | network/src/kad/behaviour.rs:905-935 | the id need not lie in the bucket the comment names: with random bytes equal to `my_id` it is `my_id` itself, at distance 0 |
| KadBehaviour.GenRandomHash | network/src/kad/behaviour.rs:908-936 | the byte loop over the 128-byte buffer computes exactly the id described by `RandomHash`, the reference function: the bytes of `my_id` before the pivot byte, the pivot byte's high bits with random low bits, random bytes after, or `Err` for a bucket past the id's bits |
| KadBehaviour.InitQueriesShape | network/src/kad/behaviour.rs:260-275 | the initialization queries are `FindPeer` queries with consecutive ids, one per accepted bucket: `min(512, 8 * (len - 2))` of them |
| KadBehaviour.InitQueriesSha3 | network/src/kad/behaviour.rs:260-275 | for a 66-byte SHA3-512 multihash all 512 buckets get a query, numbered 0 to 511 |
| KadBehaviour.Kademlia.constructor | network/src/kad/behaviour.rs:232-278 | every table starts empty and the invariant holds; with `initialize` the queue holds the initialization queries, without it nothing |
| KadBehaviour.Kademlia.StartInitQueries | network/src/kad/behaviour.rs:260-275 | the loop appends exactly `InitQueries`, the reference function listing a `FindPeer` query for each bucket `gen_random_hash` accepts, numbered on from the counter, and advances the counter by their number, keeping the invariant |
| KadBehaviour.Kademlia.StartQuery | network/src/kad/behaviour.rs:396-400 | the query is queued under the current id and the counter advances by one; queued ids stay distinct, increasing and below the counter |
| KadBehaviour.Kademlia.AddProviding | network/src/kad/behaviour.rs:360-373 | the key is provided, and the local node is appended to its provider list only if absent; the sync invariant is kept |
| KadBehaviour.Kademlia.RemoveProviding | network/src/kad/behaviour.rs:379-393 | the key is no longer provided, the local node leaves its provider list, every other provider and key stays; an unknown key changes only the provided set |
| KadBehaviour.Kademlia.FlushAddProvider | network/src/kad/behaviour.rs:682-695 | the new provider table is `Flushed` of the old one, the reference function that applies `AddRecord` to each recorded provider in order (append the peer to the key's list unless it is the local node or already there); the record list is emptied and the invariant kept |
| KadBehaviour.Kademlia.InjectConnected | network/src/kad/behaviour.rs:426-441 | the peer is connected; if known, its node's first pending RPC moves from the pending list to the queued events, addressed to the peer |
| KadBehaviour.Kademlia.InjectDisconnected | network/src/kad/behaviour.rs:494-501 | the peer is no longer connected, and the result says whether it was |

## Left out

- Strings are sequences of characters, and hex decoding works on them rather than on UTF-8 bytes. For non-ASCII input this differs from the source in two ways: the byte length (`s.len()`) decides the odd-length padding in the hex readers, and `hex::decode`'s `InvalidHexCharacter` carries the offending byte and its byte offset, where DecodePairs reports the character and its character index.
- The fixed-width integers are unbounded here. That covers the `i64` of `collected_slots`, the `usize` of `next_query_id` and `bucket_num`, and the `u32` validator id. Overflow is not modelled; none of these can overflow in practice.
- `ushr_be` and `ushr_le` panic on `len != dst.len()`, and for a whole-byte shift a debug build panics on the `u8` shift by 8. The corrected methods take the equal lengths as a precondition. The as-written functions follow a release build.
- PrintNbits: returns the string only. Writing into a `String` never fails, so the `fmt::Error` branch is not modelled. The source indexes `data[i / 8]` and panics when `nbits > 8 * data.len()`; the model takes `nbits <= 8 * |data|` as a precondition instead of modelling the panic.
- Optimistic: hashing, `sign_hash`, `check_hash` and `check_supermajority` are uninterpreted function parameters. `ViewChangeProof::new` is not part of this model: the proof is the map from validator id to signature that it is built from.
- Optimistic.ViewChangeCollector.HandleTimeout: returns `Option` rather than `Result<Option<_>, Error>`, because the source never returns its error case.
- Optimistic.ViewChangeCollector.HandleMessage: the slot invariant is stated against the validator list passed in. The model does not tie successive calls to one epoch's list.
- Logging (`info!`, `debug!`, `trace!`, metrics) is left out everywhere.
- KadBehaviour: the k-bucket table is not part of this model. That covers `set_connected`, the `DialPeer` events it triggers, address bookkeeping, `set_disconnected` and the RPC errors injected into active queries on disconnect. The LRU cache `known_peers` is a map; its recency updates and eviction are not modelled.
- KadBehaviour: `into_multihash` is not part of this model. The constructor takes the multihash of the node id as a parameter, and `add_providing` takes the key already converted. `my_id` cannot change (`change_id` is outside the model).
- KadBehaviour: the refresh timer is not modelled. That covers the `refresh_add_providers` interval, its reset in `add_providing`, and the `AddProvider` queries that `poll` starts for every provided key when it fires.
- KadBehaviour.GenRandomHash: the random bytes are a parameter. The multihash's length must be 2 to 128: a shorter one underflows `len - 2`, and a longer one overruns the 128-byte buffer. `Multihash::from_bytes` is not modelled; RandomHashKeepsHighBits shows the two header bytes are kept.
- KadBehaviour.Kademlia.InjectDisconnected: returns `was_in` instead of the `debug_assert!` on it.
- KadBehaviour: `set_peer_id`, which fills `known_peers`, and the queueing of RPCs in `poll`, which fills `pending_rpcs`, are not modelled. No modelled method adds to either, so InjectConnected's move of a pending RPC and the pending-list contents are reachable only from a state given at the start.
- KadBehaviour.RandomHashKeepsHighBits: states only the upper bound on the distance to `my_id`; the source's comment says the id belongs to the bucket, which the code does not guarantee (RandomHashMayBeOwnId).

## Findings

| source | as written | input that shows it | evidently intended | confidence | as-written member | corrected member |
|---|---|---|---|---|---|---|
| crypto/src/utils/mod.rs:148-169 | for `nsh % 8 == 0`, `lsh` is 8 and `*x << lsh` on a `u8` panics in a debug build; in a release build it shifts by 0 and ORs each whole byte into the next | `ushr_be([0x01, 0x02], dst, 0)` gives `[0x01, 0x03]` | a zero carry for whole-byte shifts, so `dst` is `src` shifted right by `nsh` bits | high for the release result, not executed | ByteUtils.UshrBeAsWritten, ByteUtils.UshrAsWrittenByteAlignedCounterexample | ByteUtils.UshrBe |
| crypto/src/utils/mod.rs:171-192 | the same shift by 8 in `ushr_le` | `ushr_le([0x01, 0x02], dst, 0)` gives `[0x03, 0x02]` | a zero carry for whole-byte shifts | high for the release result, not executed | ByteUtils.UshrLeAsWritten, ByteUtils.UshrAsWrittenByteAlignedCounterexample | ByteUtils.UshrLe |
| crypto/src/utils/mod.rs:108-115 | the fold's closure ignores the accumulator, so only the last byte is examined | `is_zero_bits(&[0x01, 0x00])` is true | true iff every byte is 0x00 | high, not executed | ByteUtils.IsZeroBits | ByteUtils.AllZeroBits |
| crypto/src/utils/mod.rs:117-124 | the same for 0xff | `is_one_bits(&[0x00, 0xff])` is true | true iff every byte is 0xff | high, not executed | ByteUtils.IsOneBits | ByteUtils.AllOneBits |
| crypto/src/utils/mod.rs:43-52 | the decoded bytes go to the front of the big-endian buffer and the zero padding after them, at the least significant end | `hexstr_to_bev_u8("1", x)` with a two-byte `x` gives `[0x01, 0x00]`, which is 256 | zero padding in front, so the buffer denotes the hex number, as `hexstr_to_lev_u8` does at its most significant end | medium (callers may always pass a buffer of the exact size), not executed | ByteUtils.BevPaddingScales, ByteUtils.BevPaddingCounterexample | ByteUtils.BevFill |
