/**
 * The bookkeeping of the Kademlia network behaviour: the counter and queue of
 * queries to start, the providers known for each key and the keys this node
 * provides itself, the peers connected, the RPCs waiting for a peer to
 * connect, and the generator of random ids that keep `my_id` above their
 * last `bucket_num + 1` bits (distance below `2^(bucket_num + 1)`).
 *
 * Node ids, peer ids and multihashes are all byte strings here. The k-bucket
 * table, the queries in flight and the swarm around the behaviour are not
 * modelled; random bytes are an input.
 */
module KadBehaviour {
  import opened Wrappers
  import Seqs
  import ByteUtils

  type NodeId = seq<bv8>
  type PeerId = seq<bv8>
  type Multihash = seq<bv8>

  /** What an iterative query looks for. */
  datatype QueryTarget = FindPeer(peerKey: Multihash) | GetProviders(providersKey: Multihash)

  /** Why a query is in the list of queries. */
  datatype QueryPurpose = Initialization | UserRequest | AddProvider(key: Multihash)

  /** An entry of `queries_to_starts`. */
  datatype QueryStart = QueryStart(id: nat, target: QueryTarget, purpose: QueryPurpose)

  /** A request for the protocol handler of one peer; its contents are not modelled. */
  datatype Rpc = Rpc(payload: seq<bv8>)

  /** An entry of `pending_rpcs`: an RPC to send to `node` once it connects. */
  datatype PendingRpc = PendingRpc(node: NodeId, rpc: Rpc)

  /** An entry of `queued_events`. */
  datatype Action = SendEvent(peerId: PeerId, event: Rpc)

  /** An entry of `add_provider`: a provider learnt from the network for `key`. */
  datatype ProviderRecord = ProviderRecord(key: Multihash, provider: NodeId)

  /** No element occurs twice. */
  predicate NoDup<T(==)>(s: seq<T>) {
    forall i, j :: 0 <= i < j < |s| ==> s[i] != s[j]
  }

  /** `iter().position(|k| *k == x)`: the first index holding `x`, or none. */
  function Position<T(==)>(s: seq<T>, x: T): (r: Option<nat>)
    ensures r.Some? ==> r.value < |s| && s[r.value] == x && x !in s[..r.value]
    ensures r.None? <==> x !in s
  {
    Seqs.FirstIndex(s, y => y == x)
  }

  /** `s` without its element at `p`. */
  function RemoveAt<T>(s: seq<T>, p: nat): (r: seq<T>)
    requires p < |s|
    ensures |r| == |s| - 1
    ensures forall i :: 0 <= i < p ==> r[i] == s[i]
    ensures forall i :: p <= i < |r| ==> r[i] == s[i + 1]
  {
    s[..p] + s[p + 1..]
  }

  /** Removing one element of a list without repeats removes that element and keeps every other one. */
  lemma RemoveAtNoDup<T>(s: seq<T>, p: nat)
    requires p < |s| && NoDup(s)
    ensures NoDup(RemoveAt(s, p))
    ensures s[p] !in RemoveAt(s, p)
    ensures forall x :: x in s && x != s[p] ==> x in RemoveAt(s, p)
  {
    var r := RemoveAt(s, p);
    forall x | x in s && x != s[p]
      ensures x in r
    {
      var i :| 0 <= i < |s| && s[i] == x;
      if i < p {
        assert r[i] == x;
      } else {
        assert r[i - 1] == x;
      }
    }
  }

  /** `iter().position(|(p, _)| p == node)` over the pending RPCs. */
  function PendingPosition(rpcs: seq<PendingRpc>, node: NodeId): (r: Option<nat>)
    ensures r.Some? ==> r.value < |rpcs| && rpcs[r.value].node == node
    ensures r.Some? ==> forall i :: 0 <= i < r.value ==> rpcs[i].node != node
    ensures r.None? <==> forall i :: 0 <= i < |rpcs| ==> rpcs[i].node != node
  {
    Seqs.FirstIndex(rpcs, (q: PendingRpc) => q.node == node)
  }

  /** The provider list of `key`, empty when there is none (`entry(key).or_insert_with(Default::default)`). */
  function ProvidersOf(vp: map<Multihash, seq<NodeId>>, key: Multihash): seq<NodeId> {
    if key in vp then vp[key] else []
  }

  /**
   * One step of the `add_provider` flush: a record naming this node is
   * skipped, any other adds its provider to the key's list unless already
   * there.
   */
  function AddRecord(vp: map<Multihash, seq<NodeId>>, me: NodeId, rec: ProviderRecord): map<Multihash, seq<NodeId>> {
    if rec.provider == me then vp
    else
      var l := ProvidersOf(vp, rec.key);
      vp[rec.key := if rec.provider in l then l else l + [rec.provider]]
  }

  /** The provider lists after the flush of `recs`, first record first. */
  function Flushed(vp: map<Multihash, seq<NodeId>>, me: NodeId, recs: seq<ProviderRecord>): map<Multihash, seq<NodeId>>
    decreases |recs|
  {
    if recs == [] then vp else Flushed(AddRecord(vp, me, recs[0]), me, recs[1..])
  }

  /** Every provider list is without repeats. */
  predicate ListsNoDup(vp: map<Multihash, seq<NodeId>>) {
    forall k :: k in vp ==> NoDup(vp[k])
  }

  /** The flush keeps the provider lists without repeats. */
  lemma {:induction false} FlushedNoDup(vp: map<Multihash, seq<NodeId>>, me: NodeId, recs: seq<ProviderRecord>)
    requires ListsNoDup(vp)
    ensures ListsNoDup(Flushed(vp, me, recs))
    decreases |recs|
  {
    if recs != [] {
      var next := AddRecord(vp, me, recs[0]);
      forall k | k in next ensures NoDup(next[k]) {
        if k == recs[0].key && recs[0].provider != me {
          var l := ProvidersOf(vp, k);
          assert NoDup(l);
        }
      }
      FlushedNoDup(next, me, recs[1..]);
    }
  }

  /**
   * The flush never adds this node as a provider, never drops a provider or
   * a key, and adds the provider of every record that does not name this node.
   */
  lemma {:induction false} FlushedProviders(vp: map<Multihash, seq<NodeId>>, me: NodeId, recs: seq<ProviderRecord>)
    ensures forall k :: k in vp ==> k in Flushed(vp, me, recs)
    ensures forall k, x :: k in vp && x in vp[k] ==> x in Flushed(vp, me, recs)[k]
    ensures forall k :: k in Flushed(vp, me, recs) ==>
      (me in Flushed(vp, me, recs)[k] <==> k in vp && me in vp[k])
    ensures forall i :: 0 <= i < |recs| && recs[i].provider != me ==>
      recs[i].key in Flushed(vp, me, recs) && recs[i].provider in Flushed(vp, me, recs)[recs[i].key]
    decreases |recs|
  {
    if recs != [] {
      var next := AddRecord(vp, me, recs[0]);
      FlushedProviders(next, me, recs[1..]);
      var f := Flushed(vp, me, recs);
      assert f == Flushed(next, me, recs[1..]);
      forall i | 0 <= i < |recs| && recs[i].provider != me
        ensures recs[i].key in f && recs[i].provider in f[recs[i].key]
      {
        if i > 0 {
          assert recs[1..][i - 1] == recs[i];
        }
      }
    }
  }

  // -------------------------------------------------------------------------
  // Random ids in a bucket

  /** `(1 << k) - 1`: the low `k` bits of a byte. */
  function LowMask(k: nat): bv8
    requires k < 8
  {
    (1 << ByteUtils.BitPos(k)) - 1
  }

  /**
   * The id `gen_random_hash` builds from `my_id` for bucket `bucketNum`
   * when `rnd[i]` is the random byte drawn at index `i`: the bytes before
   * the pivot `len - (bucketNum + 1) / 8 - 1` are copied, the pivot byte
   * keeps its bits outside the low `(bucketNum + 1) % 8` ones, the rest is
   * random. A bucket beyond the `8 * (len - 2)` bits after the two header
   * bytes is an error.
   */
  function RandomHash(myHash: Multihash, bucketNum: nat, rnd: seq<bv8>): Result<Multihash, ()>
    requires 2 <= |myHash| <= |rnd|
  {
    var len, bitsDiff := |myHash|, bucketNum + 1;
    if bitsDiff > 8 * (len - 2) then Err(())
    else
      var pivot := len - bitsDiff / 8 - 1;
      Ok(seq(len, i requires 0 <= i < len => RandomByte(myHash, rnd, pivot, bitsDiff % 8, i)))
  }

  /** Byte `i` of the random id: copied before `pivot`, masked at it, random after it. */
  function RandomByte(myHash: Multihash, rnd: seq<bv8>, pivot: nat, k: nat, i: nat): bv8
    requires i < |myHash| <= |rnd| && k < 8
  {
    if i < pivot then myHash[i]
    else if i == pivot then (myHash[i] & !LowMask(k)) | (rnd[i] & LowMask(k))
    else rnd[i]
  }

  /** A bucket is refused exactly when it lies beyond the bits after the two-byte header. */
  lemma RandomHashRefuses(myHash: Multihash, bucketNum: nat, rnd: seq<bv8>)
    requires 2 <= |myHash| <= |rnd|
    ensures RandomHash(myHash, bucketNum, rnd).Err? <==> bucketNum + 1 > 8 * (|myHash| - 2)
    ensures RandomHash(myHash, bucketNum, rnd).Ok? ==> |RandomHash(myHash, bucketNum, rnd).value| == |myHash|
  {
  }

  lemma MaskCore(x: bv8, y: bv8, k: bv8, p: bv8)
    requires k < 8 && p < 8 - k
    ensures (((x & !((1 << k) - 1)) | (y & ((1 << k) - 1))) >> (7 - p)) & 1 == (x >> (7 - p)) & 1
  {
  }

  lemma MaskGlue(p: nat, k: nat)
    requires k < 8 && p < 8 - k
    ensures ByteUtils.BitPos(7 - p) == 7 - ByteUtils.BitPos(p)
    ensures ByteUtils.BitPos(p) < 8 - ByteUtils.BitPos(k)
  {
  }

  /** Bit `p` (from the top) of the pivot byte is kept when it lies above the `k` random low bits. */
  lemma MaskKeepsBit(x: bv8, y: bv8, k: nat, p: nat)
    requires k < 8 && p < 8 - k
    ensures ByteUtils.MsbBit((x & !LowMask(k)) | (y & LowMask(k)), p) == ByteUtils.MsbBit(x, p)
  {
    MaskCore(x, y, ByteUtils.BitPos(k), ByteUtils.BitPos(p));
    MaskGlue(p, k);
  }

  /**
   * An accepted id keeps the two header bytes of `my_id` (so it is a valid
   * multihash again) and every bit of `my_id` but the last `bucketNum + 1`:
   * its distance to `my_id` is below `2^(bucketNum + 1)`. Nothing bounds it
   * from below (see RandomHashMayBeOwnId).
   */
  lemma {:induction false} RandomHashKeepsHighBits(myHash: Multihash, bucketNum: nat, rnd: seq<bv8>)
    requires 2 <= |myHash| <= |rnd|
    requires RandomHash(myHash, bucketNum, rnd).Ok?
    ensures RandomHash(myHash, bucketNum, rnd).value[..2] == myHash[..2]
    ensures forall i :: 0 <= i < 8 * |myHash| - (bucketNum + 1) ==>
      ByteUtils.BeBit(RandomHash(myHash, bucketNum, rnd).value, i) == ByteUtils.BeBit(myHash, i)
  {
    var h := RandomHash(myHash, bucketNum, rnd).value;
    var len, bitsDiff := |myHash|, bucketNum + 1;
    var pivot, k := len - bitsDiff / 8 - 1, bitsDiff % 8;
    assert pivot >= 1;
    assert pivot == 1 ==> k == 0;
    assert LowMask(0) == 0;
    assert h[1] == myHash[1] by {
      if pivot == 1 {
        assert h[1] == (myHash[1] & !LowMask(0)) | (rnd[1] & LowMask(0));
      }
    }
    forall i | 0 <= i < 8 * len - bitsDiff
      ensures ByteUtils.BeBit(h, i) == ByteUtils.BeBit(myHash, i)
    {
      var j, p := i / 8, i % 8;
      assert j <= pivot;
      if j == pivot {
        assert p < 8 - k;
        MaskKeepsBit(myHash[j], rnd[j], k, p);
      }
    }
  }

  lemma MaskSame(x: bv8, m: bv8)
    ensures (x & !m) | (x & m) == x
  {
  }

  /**
   * The id need not fall in bucket `bucketNum`: when the random bytes repeat
   * `my_id`, the id is `my_id` itself, at distance 0 from it.
   */
  lemma RandomHashMayBeOwnId(myHash: Multihash, bucketNum: nat)
    requires 2 <= |myHash| && bucketNum + 1 <= 8 * (|myHash| - 2)
    ensures RandomHash(myHash, bucketNum, myHash) == Ok(myHash)
  {
    var len, bitsDiff := |myHash|, bucketNum + 1;
    var pivot, k := len - bitsDiff / 8 - 1, bitsDiff % 8;
    var h := RandomHash(myHash, bucketNum, myHash).value;
    forall i | 0 <= i < len
      ensures h[i] == myHash[i]
    {
      assert h[i] == RandomByte(myHash, myHash, pivot, k, i);
      MaskSame(myHash[i], LowMask(k));
    }
    assert h == myHash;
  }

  /**
   * `gen_random_hash`: fills a 128-byte buffer byte by byte and returns
   * its first `len` bytes. The random byte drawn at index `i` is `rnd[i]`.
   * A multihash has a two-byte header, and one longer than the buffer would
   * overrun it.
   */
  method GenRandomHash(myHash: Multihash, bucketNum: nat, rnd: seq<bv8>) returns (r: Result<Multihash, ()>)
    requires 2 <= |myHash| <= 128 && |myHash| <= |rnd|
    ensures r == RandomHash(myHash, bucketNum, rnd)
  {
    var len := |myHash|;
    var bitsDiff := bucketNum + 1;
    if bitsDiff > 8 * (len - 2) {
      return Err(());
    }
    var randomId := new bv8[128](_ => 0);
    var pivot := len - bitsDiff / 8 - 1;
    for byte := 0 to len
      invariant forall i :: 0 <= i < byte ==> randomId[i] == RandomByte(myHash, rnd, pivot, bitsDiff % 8, i)
    {
      if byte < pivot {
        randomId[byte] := myHash[byte];
      } else if byte == pivot {
        var mask := LowMask(bitsDiff % 8);
        randomId[byte] := (myHash[byte] & !mask) | (rnd[byte] & mask);
      } else {
        randomId[byte] := rnd[byte];
      }
    }
    ghost var want := RandomHash(myHash, bucketNum, rnd).value;
    assert forall i :: 0 <= i < len ==> randomId[..len][i] == want[i];
    assert randomId[..len] == want;
    r := Ok(randomId[..len]);
  }

  // -------------------------------------------------------------------------
  // The initialization queries

  /**
   * The queries `new_inner` queues for buckets `n` to 511, numbered from
   * `nextId`: one `FindPeer` per bucket `gen_random_hash` accepts, with the
   * random bytes `rnd[n]` for bucket `n`.
   */
  function InitQueries(myHash: Multihash, rnd: seq<seq<bv8>>, n: nat, nextId: nat): seq<QueryStart>
    requires 2 <= |myHash| && |rnd| == 512 && n <= 512
    requires forall b :: 0 <= b < 512 ==> |myHash| <= |rnd[b]|
    decreases 512 - n
  {
    if n == 512 then []
    else match RandomHash(myHash, n, rnd[n])
      case Err(_) => InitQueries(myHash, rnd, n + 1, nextId)
      case Ok(h) => [QueryStart(nextId, FindPeer(h), Initialization)] + InitQueries(myHash, rnd, n + 1, nextId + 1)
  }

  /**
   * The initialization queries carry consecutive ids from `nextId`, are all
   * `FindPeer` queries for initialization, and there is one per accepted
   * bucket: `min(512, 8 * (len - 2)) - n` of them.
   */
  lemma {:induction false} InitQueriesShape(myHash: Multihash, rnd: seq<seq<bv8>>, n: nat, nextId: nat)
    requires 2 <= |myHash| && |rnd| == 512 && n <= 512
    requires forall b :: 0 <= b < 512 ==> |myHash| <= |rnd[b]|
    ensures |InitQueries(myHash, rnd, n, nextId)| == if n < ByteUtils.Min(512, 8 * (|myHash| - 2)) then ByteUtils.Min(512, 8 * (|myHash| - 2)) - n else 0
    ensures forall i :: 0 <= i < |InitQueries(myHash, rnd, n, nextId)| ==>
      InitQueries(myHash, rnd, n, nextId)[i].id == nextId + i &&
      InitQueries(myHash, rnd, n, nextId)[i].target.FindPeer? &&
      InitQueries(myHash, rnd, n, nextId)[i].purpose == Initialization
    decreases 512 - n
  {
    if n < 512 {
      RandomHashRefuses(myHash, n, rnd[n]);
      var q := InitQueries(myHash, rnd, n, nextId);
      match RandomHash(myHash, n, rnd[n])
      case Err(_) =>
        InitQueriesShape(myHash, rnd, n + 1, nextId);
      case Ok(h) =>
        InitQueriesShape(myHash, rnd, n + 1, nextId + 1);
        var rest := InitQueries(myHash, rnd, n + 1, nextId + 1);
        assert q == [QueryStart(nextId, FindPeer(h), Initialization)] + rest;
        forall i | 0 <= i < |q|
          ensures q[i].id == nextId + i && q[i].target.FindPeer? && q[i].purpose == Initialization
        {
          if i > 0 {
            assert q[i] == rest[i - 1];
          }
        }
    }
  }

  /** For a SHA3-512 multihash (66 bytes) every one of the 512 buckets gets a query, numbered 0 to 511. */
  lemma InitQueriesSha3(myHash: Multihash, rnd: seq<seq<bv8>>)
    requires |myHash| == 66 && |rnd| == 512
    requires forall b :: 0 <= b < 512 ==> |myHash| <= |rnd[b]|
    ensures |InitQueries(myHash, rnd, 0, 0)| == 512
    ensures forall i :: 0 <= i < 512 ==> InitQueries(myHash, rnd, 0, 0)[i].id == i
  {
    InitQueriesShape(myHash, rnd, 0, 0);
  }

  // -------------------------------------------------------------------------
  // The behaviour

  class Kademlia {
    /** The local node id. */
    const myId: NodeId
    /** Identifier for the next query started. */
    var nextQueryId: nat
    /** Queries to start once inside `poll`. */
    var queriesToStart: seq<QueryStart>
    /** The peers providing each key; the local node may be among them. */
    var valuesProviders: map<Multihash, seq<NodeId>>
    /** The keys this node provides itself. */
    var providingKeys: set<Multihash>
    /** Providers learnt from the network, to add in the next `poll`. */
    var addProvider: seq<ProviderRecord>
    var connectedPeers: set<PeerId>
    /** The node id of each peer id known. */
    var knownPeers: map<PeerId, NodeId>
    /** RPCs waiting for their node to connect. */
    var pendingRpcs: seq<PendingRpc>
    /** Events to return when polled. */
    var queuedEvents: seq<Action>

    /**
     * The behaviour's invariant: the queued queries have distinct ids, in
     * increasing order and all below `nextQueryId`; no provider list repeats
     * a node; and the keys this node provides are exactly the keys whose
     * provider list names this node.
     */
    predicate Valid()
      reads this
    {
      (forall i, j :: 0 <= i < j < |queriesToStart| ==> queriesToStart[i].id < queriesToStart[j].id) &&
      (forall i :: 0 <= i < |queriesToStart| ==> queriesToStart[i].id < nextQueryId) &&
      ListsNoDup(valuesProviders) &&
      (forall k :: k in providingKeys ==> k in valuesProviders) &&
      (forall k :: k in valuesProviders ==> (myId in valuesProviders[k] <==> k in providingKeys))
    }

    /**
     * `new_inner`: an empty behaviour; with `initialize`, one initialization
     * query per bucket 0 to 511 that `gen_random_hash` accepts for
     * `myHash`, the multihash of `myId`.
     */
    constructor (myId: NodeId, myHash: Multihash, initialize: bool, rnd: seq<seq<bv8>>)
      requires 2 <= |myHash| <= 128 && |rnd| == 512
      requires forall b :: 0 <= b < 512 ==> |myHash| <= |rnd[b]|
      ensures Valid()
      ensures this.myId == myId
      ensures queriesToStart == if initialize then InitQueries(myHash, rnd, 0, 0) else []
      ensures nextQueryId == |queriesToStart|
      ensures valuesProviders == map[] && providingKeys == {} && addProvider == []
      ensures connectedPeers == {} && knownPeers == map[] && pendingRpcs == [] && queuedEvents == []
    {
      this.myId := myId;
      nextQueryId := 0;
      queriesToStart := [];
      valuesProviders := map[];
      providingKeys := {};
      addProvider := [];
      connectedPeers := {};
      knownPeers := map[];
      pendingRpcs := [];
      queuedEvents := [];
      new;
      assert Valid();
      if initialize {
        StartInitQueries(myHash, rnd);
        assert queriesToStart == InitQueries(myHash, rnd, 0, 0);
      }
    }

    /**
     * The initialization loop of `new_inner`: for each bucket 0 to 511 whose
     * random id `gen_random_hash` accepts, start a `FindPeer` query for it.
     */
    method StartInitQueries(myHash: Multihash, rnd: seq<seq<bv8>>)
      requires Valid()
      requires 2 <= |myHash| <= 128 && |rnd| == 512
      requires forall b :: 0 <= b < 512 ==> |myHash| <= |rnd[b]|
      modifies this`nextQueryId, this`queriesToStart
      ensures Valid()
      ensures queriesToStart == old(queriesToStart) + InitQueries(myHash, rnd, 0, old(nextQueryId))
      ensures nextQueryId == old(nextQueryId) + |InitQueries(myHash, rnd, 0, old(nextQueryId))|
    {
      for n := 0 to 512
        invariant Valid()
        invariant queriesToStart + InitQueries(myHash, rnd, n, nextQueryId)
          == old(queriesToStart) + InitQueries(myHash, rnd, 0, old(nextQueryId))
        invariant nextQueryId - |queriesToStart| == old(nextQueryId) - |old(queriesToStart)|
      {
        var randomHash := GenRandomHash(myHash, n, rnd[n]);
        if randomHash.Ok? {
          StartQuery(FindPeer(randomHash.value), Initialization);
        }
      }
    }

    /** `start_query`: queue a query under the next id and advance the counter. */
    method StartQuery(target: QueryTarget, purpose: QueryPurpose)
      requires Valid()
      modifies this`nextQueryId, this`queriesToStart
      ensures Valid()
      ensures nextQueryId == old(nextQueryId) + 1
      ensures queriesToStart == old(queriesToStart) + [QueryStart(old(nextQueryId), target, purpose)]
    {
      var queryId := nextQueryId;
      nextQueryId := nextQueryId + 1;
      queriesToStart := queriesToStart + [QueryStart(queryId, target, purpose)];
    }

    /** `add_providing`: provide `key`, naming this node among its providers once. */
    method AddProviding(key: Multihash)
      requires Valid()
      modifies this`providingKeys, this`valuesProviders
      ensures Valid()
      ensures providingKeys == old(providingKeys) + {key}
      ensures var l := ProvidersOf(old(valuesProviders), key);
        valuesProviders == old(valuesProviders)[key := if myId in l then l else l + [myId]]
      ensures myId in valuesProviders[key]
    {
      providingKeys := providingKeys + {key};
      var providers := ProvidersOf(valuesProviders, key);
      if myId !in providers {
        providers := providers + [myId];
      }
      valuesProviders := valuesProviders[key := providers];
    }

    /**
     * `remove_providing`: stop providing `key` and take this node off its
     * provider list; other providers and other keys stay as they are.
     */
    method RemoveProviding(key: Multihash)
      requires Valid()
      modifies this`providingKeys, this`valuesProviders
      ensures Valid()
      ensures providingKeys == old(providingKeys) - {key}
      ensures key !in old(valuesProviders) ==> valuesProviders == old(valuesProviders)
      ensures key in old(valuesProviders) ==>
        valuesProviders == old(valuesProviders)[key :=
          match Position(old(valuesProviders)[key], myId)
            case None => old(valuesProviders)[key]
            case Some(p) => RemoveAt(old(valuesProviders)[key], p)]
      ensures key in valuesProviders ==> myId !in valuesProviders[key]
      ensures key in old(valuesProviders) ==>
        forall x :: x in old(valuesProviders)[key] && x != myId ==> x in valuesProviders[key]
    {
      providingKeys := providingKeys - {key};
      if key !in valuesProviders {
        return;
      }
      var providers := valuesProviders[key];
      var position := Position(providers, myId);
      if position.Some? {
        RemoveAtNoDup(providers, position.value);
        valuesProviders := valuesProviders[key := RemoveAt(providers, position.value)];
      }
    }

    /**
     * The `add_provider` flush at the start of `poll`: every record is
     * applied in order, then the list is emptied.
     */
    method FlushAddProvider()
      requires Valid()
      modifies this`valuesProviders, this`addProvider
      ensures Valid()
      ensures addProvider == []
      ensures valuesProviders == Flushed(old(valuesProviders), myId, old(addProvider))
    {
      var records := addProvider;
      var i := 0;
      FlushedNoDup(valuesProviders, myId, records);
      FlushedProviders(valuesProviders, myId, records);
      while i < |records|
        invariant 0 <= i <= |records|
        invariant Flushed(valuesProviders, myId, records[i..]) == Flushed(old(valuesProviders), myId, records)
      {
        var rec := records[i];
        assert records[i..][1..] == records[i + 1..];
        if rec.provider != myId {
          var providers := ProvidersOf(valuesProviders, rec.key);
          if rec.provider !in providers {
            providers := providers + [rec.provider];
          }
          valuesProviders := valuesProviders[rec.key := providers];
        }
        i := i + 1;
      }
      addProvider := [];
    }

    /**
     * The bookkeeping of `inject_connected`: the peer is connected, and if it
     * is known and an RPC waits for its node, the first such RPC leaves the
     * pending list and is queued to be sent to it.
     */
    method InjectConnected(id: PeerId)
      modifies this`connectedPeers, this`pendingRpcs, this`queuedEvents
      ensures connectedPeers == old(connectedPeers) + {id}
      ensures id !in knownPeers ==> pendingRpcs == old(pendingRpcs) && queuedEvents == old(queuedEvents)
      ensures id in knownPeers ==>
        match PendingPosition(old(pendingRpcs), knownPeers[id])
          case None => pendingRpcs == old(pendingRpcs) && queuedEvents == old(queuedEvents)
          case Some(p) =>
            pendingRpcs == RemoveAt(old(pendingRpcs), p) &&
            queuedEvents == old(queuedEvents) + [SendEvent(id, old(pendingRpcs)[p].rpc)]
    {
      connectedPeers := connectedPeers + {id};
      if id !in knownPeers {
        return;
      }
      var nodeId := knownPeers[id];
      var pos := PendingPosition(pendingRpcs, nodeId);
      if pos.Some? {
        var rpc := pendingRpcs[pos.value].rpc;
        pendingRpcs := RemoveAt(pendingRpcs, pos.value);
        queuedEvents := queuedEvents + [SendEvent(id, rpc)];
      }
    }

    /** The bookkeeping of `inject_disconnected`: the peer is no longer connected; reports whether it was. */
    method InjectDisconnected(id: PeerId) returns (wasIn: bool)
      modifies this`connectedPeers
      ensures wasIn <==> id in old(connectedPeers)
      ensures connectedPeers == old(connectedPeers) - {id}
    {
      wasIn := id in connectedPeers;
      connectedPeers := connectedPeers - {id};
    }
  }
}
