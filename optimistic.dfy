/**
 * View changes of the optimistic consensus: a collector that gathers at most
 * one signed view-change vote per validator of the current epoch, adds up the
 * voting slots of the validators heard from, and hands out a proof (and starts
 * over) once those slots reach a supermajority.
 *
 * Hashing, signing, signature checking and the supermajority rule are not
 * modelled: they are the fields of a `Crypto` value passed in, about which
 * nothing is assumed. The blockchain is the value of its accessors.
 */
module Optimistic {
  import opened Wrappers
  import Seqs

  type Hash = seq<bv8>
  type PublicKey = seq<bv8>
  type SecretKey = seq<bv8>
  type Signature = seq<bv8>

  /** An entry of the validator list: its key and its voting slots. */
  datatype Validator = Validator(key: PublicKey, slots: int)

  /** What the collector reads from the blockchain: `height()`, `last_block_hash()`, `view_change()`, `validators()`, `total_slots()`. */
  datatype Blockchain = Blockchain(
    height: nat, lastBlock: Hash, viewChange: nat, validators: seq<Validator>, totalSlots: int)

  /** The point of the chain a vote is about. */
  datatype ChainInfo = ChainInfo(height: nat, lastBlock: Hash, viewChange: nat)

  datatype ViewChangeMessage = ViewChangeMessage(chain: ChainInfo, validatorId: nat, signature: Signature)

  /** The proof handed out at a supermajority: the signature of every validator counted, by validator id. */
  type ViewChangeProof = map<nat, Signature>

  datatype ConsensusError =
    | InvalidValidatorId(id: nat)
    | InvalidViewChangeSignature
    | InvalidViewChangeHeight(got: nat, expected: nat)
    | InvalidLastBlockHash(gotHash: Hash, expectedHash: Hash)
    | InvalidViewChangeCounter(gotCounter: nat, expectedCounter: nat)

  /** The cryptography and the supermajority rule, left uninterpreted. */
  datatype Crypto = Crypto(
    digest: ChainInfo -> Hash,
    sign: (Hash, SecretKey) -> Signature,
    checkHash: (Hash, Signature, PublicKey) -> bool,
    supermajority: (int, int) -> bool)

  /** `ChainInfo::from_blockchain`. */
  function ChainOf(bc: Blockchain): (c: ChainInfo)
    ensures c.height == bc.height && c.lastBlock == bc.lastBlock && c.viewChange == bc.viewChange
  {
    ChainInfo(bc.height, bc.lastBlock, bc.viewChange)
  }

  /** `ViewChangeMessage::new`: the vote of validator `id`, signing the hash of `chain`. */
  function NewViewChangeMessage(chain: ChainInfo, id: nat, skey: SecretKey, crypto: Crypto): (m: ViewChangeMessage)
    ensures m.chain == chain && m.validatorId == id
    ensures m.signature == crypto.sign(crypto.digest(chain), skey)
  {
    ViewChangeMessage(chain, id, crypto.sign(crypto.digest(chain), skey))
  }

  /**
   * `ViewChangeMessage::validate`: an id outside the validator list is
   * rejected whatever the signature, otherwise the signature must check
   * against that validator's key.
   */
  function Validate(m: ViewChangeMessage, bc: Blockchain, crypto: Crypto): (r: Result<(), ConsensusError>)
    ensures m.validatorId >= |bc.validators| <==> r == Err(InvalidValidatorId(m.validatorId))
    ensures r == Err(InvalidViewChangeSignature) <==>
      m.validatorId < |bc.validators| &&
      !crypto.checkHash(crypto.digest(m.chain), m.signature, bc.validators[m.validatorId].key)
    ensures r.Ok? <==>
      m.validatorId < |bc.validators| &&
      crypto.checkHash(crypto.digest(m.chain), m.signature, bc.validators[m.validatorId].key)
  {
    if m.validatorId >= |bc.validators| then Err(InvalidValidatorId(m.validatorId))
    else if !crypto.checkHash(crypto.digest(m.chain), m.signature, bc.validators[m.validatorId].key) then
      Err(InvalidViewChangeSignature)
    else Ok(())
  }

  /**
   * The checks `handle_message` makes before it counts a vote, in their
   * order: height, then last block, then view-change counter, then
   * `validate`. A vote passes exactly when it is about the current chain
   * point and validates.
   */
  function CheckMessage(bc: Blockchain, m: ViewChangeMessage, crypto: Crypto): (r: Result<(), ConsensusError>)
    ensures m.chain.height != bc.height ==> r == Err(InvalidViewChangeHeight(m.chain.height, bc.height))
    ensures m.chain.height == bc.height && m.chain.lastBlock != bc.lastBlock ==>
      r == Err(InvalidLastBlockHash(m.chain.lastBlock, bc.lastBlock))
    ensures m.chain.height == bc.height && m.chain.lastBlock == bc.lastBlock && m.chain.viewChange != bc.viewChange ==>
      r == Err(InvalidViewChangeCounter(m.chain.viewChange, bc.viewChange))
    ensures m.chain == ChainOf(bc) ==> r == Validate(m, bc, crypto)
    ensures r.Ok? <==> m.chain == ChainOf(bc) && Validate(m, bc, crypto).Ok?
  {
    if m.chain.height != bc.height then Err(InvalidViewChangeHeight(m.chain.height, bc.height))
    else if m.chain.lastBlock != bc.lastBlock then Err(InvalidLastBlockHash(m.chain.lastBlock, bc.lastBlock))
    else if m.chain.viewChange != bc.viewChange then Err(InvalidViewChangeCounter(m.chain.viewChange, bc.viewChange))
    else Validate(m, bc, crypto)
  }

  /**
   * The reference sum: the slots of the validators with an id below `n`
   * that are in `ids`.
   */
  function CountedSlots(ids: set<nat>, vs: seq<Validator>, n: nat): int
    requires n <= |vs|
  {
    if n == 0 then 0 else CountedSlots(ids, vs, n - 1) + (if n - 1 in ids then vs[n - 1].slots else 0)
  }

  /** Nobody counted, no slots. */
  lemma {:induction false} CountedSlotsEmpty(vs: seq<Validator>, n: nat)
    requires n <= |vs|
    ensures CountedSlots({}, vs, n) == 0
  {
    if n > 0 {
      CountedSlotsEmpty(vs, n - 1);
    }
  }

  /** Counting one more validator adds exactly its slots. */
  lemma {:induction false} CountedSlotsInsert(ids: set<nat>, vs: seq<Validator>, n: nat, id: nat)
    requires n <= |vs| && id !in ids && id < n
    ensures CountedSlots(ids + {id}, vs, n) == CountedSlots(ids, vs, n) + vs[id].slots
  {
    if id < n - 1 {
      CountedSlotsInsert(ids, vs, n - 1, id);
    }
    if id == n - 1 {
      CountedSlotsSameBelow(ids, ids + {id}, vs, n - 1);
    }
  }

  /** The sum only looks at ids below `n`. */
  lemma {:induction false} CountedSlotsSameBelow(a: set<nat>, b: set<nat>, vs: seq<Validator>, n: nat)
    requires n <= |vs|
    requires forall i :: 0 <= i < n ==> (i in a <==> i in b)
    ensures CountedSlots(a, vs, n) == CountedSlots(b, vs, n)
  {
    if n > 0 {
      CountedSlotsSameBelow(a, b, vs, n - 1);
    }
  }

  /** The votes after `m` is accepted: the first vote of a validator is kept, a later one is dropped. */
  function Recorded(votes: map<nat, ViewChangeMessage>, m: ViewChangeMessage): (r: map<nat, ViewChangeMessage>)
    ensures m.validatorId in votes ==> r == votes
    ensures r.Keys == votes.Keys + {m.validatorId}
    ensures forall id :: id in votes ==> r[id] == votes[id]
    ensures m.validatorId !in votes ==> r[m.validatorId] == m
  {
    if m.validatorId in votes then votes else votes[m.validatorId := m]
  }

  /** The slots after `m` is accepted: those of a validator not heard from before are added. */
  function RecordedSlots(votes: map<nat, ViewChangeMessage>, slots: int, vs: seq<Validator>, m: ViewChangeMessage): int
    requires m.validatorId < |vs|
  {
    if m.validatorId in votes then slots else slots + vs[m.validatorId].slots
  }

  /** `ViewChangeProof::new` over the counted votes: each counted validator's signature. */
  function ProofOf(votes: map<nat, ViewChangeMessage>): (p: ViewChangeProof)
    ensures p.Keys == votes.Keys
    ensures forall id :: id in p ==> p[id] == votes[id].signature
  {
    map id | id in votes :: votes[id].signature
  }

  /**
   * A proof built from votes that are each filed under their own validator id
   * and each pass the checks of `handle_message` at `bc` holds, for every id,
   * a signature of the hash of `bc`'s chain point that checks against that
   * validator's key.
   */
  lemma ProofChecks(votes: map<nat, ViewChangeMessage>, bc: Blockchain, crypto: Crypto)
    requires forall id :: id in votes ==> votes[id].validatorId == id && CheckMessage(bc, votes[id], crypto).Ok?
    ensures forall id :: id in ProofOf(votes) ==>
      id < |bc.validators| &&
      crypto.checkHash(crypto.digest(ChainOf(bc)), ProofOf(votes)[id], bc.validators[id].key)
  {
    forall id | id in ProofOf(votes)
      ensures id < |bc.validators|
      ensures crypto.checkHash(crypto.digest(ChainOf(bc)), ProofOf(votes)[id], bc.validators[id].key)
    {
      var m := votes[id];
      assert m.chain == ChainOf(bc) && Validate(m, bc, crypto).Ok?;
    }
  }

  /** Recording a vote that passes the checks keeps every kept vote one that passes them. */
  lemma RecordedValid(votes: map<nat, ViewChangeMessage>, m: ViewChangeMessage, bc: Blockchain, crypto: Crypto)
    requires forall id :: id in votes ==> CheckMessage(bc, votes[id], crypto).Ok?
    requires CheckMessage(bc, m, crypto).Ok?
    ensures forall id :: id in Recorded(votes, m) ==> CheckMessage(bc, Recorded(votes, m)[id], crypto).Ok?
  {
  }

  /** Keeping the first vote of each validator keeps the slot count equal to the reference sum. */
  lemma {:induction false} RecordedKeepsTally(
    votes: map<nat, ViewChangeMessage>, slots: int, vs: seq<Validator>, m: ViewChangeMessage)
    requires forall id :: id in votes ==> id < |vs|
    requires slots == CountedSlots(votes.Keys, vs, |vs|)
    requires m.validatorId < |vs|
    ensures RecordedSlots(votes, slots, vs, m) == CountedSlots(Recorded(votes, m).Keys, vs, |vs|)
  {
    if m.validatorId !in votes {
      CountedSlotsInsert(votes.Keys, vs, |vs|, m.validatorId);
    }
  }

  /** The id of the node with key `key` in the validator list: the index of its first entry, or none. */
  function FindValidator(vs: seq<Validator>, key: PublicKey): (r: Option<nat>)
    ensures r.Some? ==> r.value < |vs| && vs[r.value].key == key
    ensures r.Some? ==> forall j :: 0 <= j < r.value ==> vs[j].key != key
    ensures r.None? <==> forall j :: 0 <= j < |vs| ==> vs[j].key != key
  {
    Seqs.FirstIndex(vs, (v: Validator) => v.key == key)
  }

  /** The signature scheme accepts what `skey` signs under `pkey`. */
  ghost predicate SignsFor(crypto: Crypto, pkey: PublicKey, skey: SecretKey) {
    forall h :: crypto.checkHash(h, crypto.sign(h, skey), pkey)
  }

  /**
   * The vote a validator makes on a timeout passes every check of
   * `handle_message` at the same chain point, provided its key pair signs
   * correctly and it is the validator it says it is.
   */
  lemma OwnVoteAccepted(bc: Blockchain, pkey: PublicKey, skey: SecretKey, crypto: Crypto)
    requires SignsFor(crypto, pkey, skey)
    requires FindValidator(bc.validators, pkey).Some?
    ensures CheckMessage(bc, NewViewChangeMessage(ChainOf(bc), FindValidator(bc.validators, pkey).value, skey, crypto), crypto) == Ok(())
  {
    var m := NewViewChangeMessage(ChainOf(bc), FindValidator(bc.validators, pkey).value, skey, crypto);
    assert crypto.checkHash(crypto.digest(m.chain), crypto.sign(crypto.digest(m.chain), skey), pkey);
  }

  /** Collects view-change votes for the current height only. */
  class ViewChangeCollector {
    /** The vote of each validator heard from whose view change equals ours. */
    var actualViewChanges: map<nat, ViewChangeMessage>
    var collectedSlots: int
    /** The id of this node; none while it is not a validator of the epoch, and then events are ignored. */
    var validatorId: Option<nat>
    const pkey: PublicKey
    const skey: SecretKey

    /**
     * The collector's invariant against validator list `vs`: every vote is
     * filed under its own, existing validator id, and `collectedSlots` is the
     * sum of the slots of the validators who voted.
     */
    predicate Tallied(vs: seq<Validator>)
      reads this
    {
      (forall id :: id in actualViewChanges ==> id < |vs| && actualViewChanges[id].validatorId == id) &&
      collectedSlots == CountedSlots(actualViewChanges.Keys, vs, |vs|)
    }

    /**
     * Every kept vote is one `handle_message` accepts at `bc`: about the
     * current height, last block and view change, from a listed validator,
     * with a signature that checks.
     */
    predicate VotesValid(bc: Blockchain, crypto: Crypto)
      reads this
    {
      forall id :: id in actualViewChanges ==> CheckMessage(bc, actualViewChanges[id], crypto).Ok?
    }

    /** `ViewChangeCollector::new`: a collector with no votes, then `on_new_consensus`. */
    constructor (bc: Blockchain, pkey: PublicKey, skey: SecretKey)
      ensures this.pkey == pkey && this.skey == skey
      ensures actualViewChanges == map[] && collectedSlots == 0
      ensures validatorId == FindValidator(bc.validators, pkey)
      ensures IsValidator() <==> exists j :: 0 <= j < |bc.validators| && bc.validators[j].key == pkey
      ensures Tallied(bc.validators)
    {
      this.pkey := pkey;
      this.skey := skey;
      collectedSlots := 0;
      validatorId := None;
      actualViewChanges := map[];
      new;
      OnNewConsensus(bc);
    }

    /** `is_validator`: whether this node is a validator of the current epoch. */
    predicate IsValidator(): (r: bool)
      reads this
      ensures r <==> validatorId.Some?
    {
      validatorId.Some?
    }

    /** `reset`: forget every vote. */
    method Reset()
      modifies this
      ensures actualViewChanges == map[] && collectedSlots == 0
      ensures validatorId == old(validatorId)
      ensures forall vs :: Tallied(vs)
    {
      actualViewChanges := map[];
      collectedSlots := 0;
      assert actualViewChanges.Keys == {};
      forall vs: seq<Validator> ensures Tallied(vs) {
        CountedSlotsEmpty(vs, |vs|);
      }
    }

    /**
     * `handle_message`. A node that is not a validator ignores the vote. A
     * vote that fails a check is rejected with that check's error. A valid
     * vote is counted unless its validator was already counted; if the
     * counted slots then make a supermajority, the proof is returned and the
     * collector starts over. Only a counted vote or a proof changes anything.
     */
    method HandleMessage(bc: Blockchain, m: ViewChangeMessage, crypto: Crypto)
      returns (r: Result<Option<ViewChangeProof>, ConsensusError>)
      modifies this
      ensures validatorId == old(validatorId)
      ensures old(Tallied(bc.validators)) ==> Tallied(bc.validators)
      ensures old(VotesValid(bc, crypto)) ==> VotesValid(bc, crypto)
      ensures old(Tallied(bc.validators)) && old(VotesValid(bc, crypto)) && r.Ok? && r.value.Some? ==>
        forall id :: id in r.value.value ==>
          id < |bc.validators| &&
          crypto.checkHash(crypto.digest(ChainOf(bc)), r.value.value[id], bc.validators[id].key)
      ensures old(validatorId).None? ==> r == Ok(None) && unchanged(this)
      ensures old(validatorId).Some? && CheckMessage(bc, m, crypto).Err? ==>
        r == Err(CheckMessage(bc, m, crypto).error) && unchanged(this)
      ensures old(validatorId).Some? && CheckMessage(bc, m, crypto).Ok? ==>
        var votes := Recorded(old(actualViewChanges), m);
        var slots := RecordedSlots(old(actualViewChanges), old(collectedSlots), bc.validators, m);
        if crypto.supermajority(slots, bc.totalSlots) then
          r == Ok(Some(ProofOf(votes))) && actualViewChanges == map[] && collectedSlots == 0
        else
          r == Ok(None) && actualViewChanges == votes && collectedSlots == slots
    {
      if !IsValidator() {
        return Ok(None);
      }
      if m.chain.height != bc.height {
        return Err(InvalidViewChangeHeight(m.chain.height, bc.height));
      }
      if m.chain.lastBlock != bc.lastBlock {
        return Err(InvalidLastBlockHash(m.chain.lastBlock, bc.lastBlock));
      }
      if m.chain.viewChange != bc.viewChange {
        return Err(InvalidViewChangeCounter(m.chain.viewChange, bc.viewChange));
      }
      var valid := Validate(m, bc, crypto);
      if valid.Err? {
        return Err(valid.error);
      }
      ghost var wasTallied := Tallied(bc.validators);
      ghost var wasValid := VotesValid(bc, crypto);
      Record(bc, m, crypto);
      if crypto.supermajority(collectedSlots, bc.totalSlots) {
        var proof := ProofOf(actualViewChanges);
        if wasTallied && wasValid {
          ProofChecks(actualViewChanges, bc, crypto);
        }
        Reset();
        return Ok(Some(proof));
      }
      r := Ok(None);
    }

    /**
     * The counting step of `handle_message` for a vote that passed the
     * checks: the vote is kept and its validator's slots added, unless that
     * validator was already counted. Both invariants are kept.
     */
    method Record(bc: Blockchain, m: ViewChangeMessage, crypto: Crypto)
      requires CheckMessage(bc, m, crypto).Ok?
      modifies this`actualViewChanges, this`collectedSlots
      ensures m.validatorId < |bc.validators|
      ensures actualViewChanges == Recorded(old(actualViewChanges), m)
      ensures collectedSlots == RecordedSlots(old(actualViewChanges), old(collectedSlots), bc.validators, m)
      ensures old(Tallied(bc.validators)) ==> Tallied(bc.validators)
      ensures old(VotesValid(bc, crypto)) ==> VotesValid(bc, crypto)
    {
      if Tallied(bc.validators) {
        RecordedKeepsTally(actualViewChanges, collectedSlots, bc.validators, m);
      }
      if VotesValid(bc, crypto) {
        RecordedValid(actualViewChanges, m, bc, crypto);
      }
      var id := m.validatorId;
      if id !in actualViewChanges {
        actualViewChanges := actualViewChanges[id := m];
        collectedSlots := collectedSlots + bc.validators[id].slots;
      }
    }

    /**
     * `handle_timeout`: nothing for a node that is not a validator, otherwise
     * this node's own vote for the current chain point. The collector is not
     * changed. Building the vote cannot fail, so the `Err` case is absent.
     */
    method HandleTimeout(bc: Blockchain, crypto: Crypto) returns (r: Option<ViewChangeMessage>)
      ensures r.None? <==> validatorId.None?
      ensures r.Some? ==> r.value == NewViewChangeMessage(ChainOf(bc), validatorId.value, skey, crypto)
      ensures r.Some? ==> r.value.validatorId == validatorId.value && r.value.chain == ChainOf(bc)
    {
      if !IsValidator() {
        return None;
      }
      var id := validatorId.value;
      var chain := ChainOf(bc);
      r := Some(NewViewChangeMessage(chain, id, skey, crypto));
    }

    /** `on_new_payment_block`: a validator forgets its votes; anyone else changes nothing. */
    method OnNewPaymentBlock(bc: Blockchain)
      modifies this
      ensures validatorId == old(validatorId)
      ensures old(validatorId).None? ==> unchanged(this)
      ensures old(validatorId).Some? ==> actualViewChanges == map[] && collectedSlots == 0
      ensures old(Tallied(bc.validators)) ==> Tallied(bc.validators)
    {
      if !IsValidator() {
        return;
      }
      Reset();
    }

    /**
     * `on_new_consensus`: forget every vote and take as this node's id the
     * index of the first validator holding its key, or none.
     */
    method OnNewConsensus(bc: Blockchain)
      modifies this
      ensures actualViewChanges == map[] && collectedSlots == 0
      ensures validatorId == FindValidator(bc.validators, pkey)
      ensures IsValidator() <==> exists j :: 0 <= j < |bc.validators| && bc.validators[j].key == pkey
      ensures Tallied(bc.validators)
    {
      var id := FindValidator(bc.validators, pkey);
      Reset();
      validatorId := id;
      assert actualViewChanges.Keys == {};
      CountedSlotsEmpty(bc.validators, |bc.validators|);
    }
  }
}
