/** The `Blockchain` object: the committed chain, the pool of pending
    transactions and the registry of peers, changed in place by its methods.
    Network replies, `time()` and the hashing are parameters. */
module Ledger {
  import opened Chain

  /** A registry entry: the peer's uuid, and its public key once fetched. */
  datatype PeerInfo = PeerInfo(uuid: string, key: Option<string>)

  class Blockchain {
    const hashing: Hashing
    var chain: seq<Block>
    var currentTransactions: seq<Transaction>
    var nodes: map<string, PeerInfo>

    /** The object invariant: there is always a last block. */
    ghost predicate Valid()
      reads this
    {
      chain != []
    }

    /** `last_block`: the most recent block of the chain. */
    function LastBlock(): (b: Block)
      reads this
      requires Valid()
      ensures b in chain && chain == chain[..|chain| - 1] + [b]
    {
      chain[|chain| - 1]
    }

    /** A fresh ledger: one genesis block, an empty pool, no peers. */
    constructor (hashing: Hashing, now: Timestamp)
      ensures Valid() && this.hashing == hashing
      ensures chain == [Genesis(now)]
      ensures chain[0].index == 1 && chain[0].proof == 100 &&
              chain[0].previousHash == "1" && chain[0].transactions == []
      ensures currentTransactions == [] && nodes == map[]
      ensures ChainValid(hashing, chain)
    {
      this.hashing := hashing;
      chain := [];
      currentTransactions := [];
      nodes := map[];
      new;
      var _ := NewBlock(GenesisProof, Some(GenesisPreviousHash), now);
    }

    /** `new_block`: mint a block from the whole pool, append it and empty
        the pool. Without a truthy `previousHash` the block links to the hash
        of the last block, which must then exist. */
    method NewBlock(proof: int, previousHash: Option<string>, now: Timestamp) returns (block: Block)
      requires Truthy(previousHash) || chain != []
      modifies this
      ensures block == Mint(hashing, old(chain), old(currentTransactions), proof, previousHash, now)
      ensures chain == old(chain) + [block]
      ensures currentTransactions == [] && nodes == old(nodes)
      ensures Valid() && LastBlock() == block
      ensures old(chain) != [] && old(ChainValid(hashing, chain)) && !Truthy(previousHash) &&
              ValidProof(hashing, old(chain)[|old(chain)| - 1].proof, proof) ==>
                ChainValid(hashing, chain)
    {
      var link := if Truthy(previousHash) then previousHash.value else BlockHash(hashing, chain[|chain| - 1]);
      block := Block(|chain| + 1, now, currentTransactions, proof, link);
      assert block == Mint(hashing, chain, currentTransactions, proof, previousHash, now);
      if chain != [] && !Truthy(previousHash) && ChainValid(hashing, chain) &&
         ValidProof(hashing, chain[|chain| - 1].proof, proof)
      {
        MintKeepsChainValid(hashing, chain, currentTransactions, proof, now);
      }
      currentTransactions := [];
      chain := chain + [block];
    }

    /** `new_transaction`: append one transaction to the pool and return the
        index of the block that will hold it. */
    method NewTransaction(sender: string, recipient: string, amount: int,
                          timestamp: Timestamp, signature: string) returns (index: int)
      requires Valid()
      modifies this
      ensures currentTransactions ==
              old(currentTransactions) + [Transaction(sender, recipient, amount, timestamp, signature)]
      ensures chain == old(chain) && nodes == old(nodes)
      ensures Valid() && index == LastBlock().index + 1
    {
      currentTransactions := currentTransactions + [Transaction(sender, recipient, amount, timestamp, signature)];
      index := LastBlock().index + 1;
    }

    /** `register_node`: record a peer from its `/uuid` and `/publickey`
        answers. Name resolution always fails in the source, so the address
        is the domain as given. On a failed key fetch the entry holding only
        the uuid stays behind. */
    method RegisterNode(domain: string, port: string, uuidReply: Reply<string>, keyReply: Reply<string>)
      returns (registered: bool)
      modifies this
      ensures chain == old(chain) && currentTransactions == old(currentTransactions)
      ensures !(uuidReply.Response? && uuidReply.status == 200) ==> !registered && nodes == old(nodes)
      ensures uuidReply.Response? && uuidReply.status == 200 ==>
                registered == (keyReply.Response? && keyReply.status == 200) &&
                nodes == old(nodes)[domain + ":" + port :=
                                    PeerInfo(uuidReply.body, if registered then Some(keyReply.body) else None)]
    {
      var address := domain + ":" + port;
      if !(uuidReply.Response? && uuidReply.status == 200) {
        return false;
      }
      var uuid := uuidReply.body;
      nodes := nodes[address := PeerInfo(uuid, None)];
      if !(keyReply.Response? && keyReply.status == 200) {
        return false;
      }
      nodes := nodes[address := PeerInfo(uuid, Some(keyReply.body))];
      registered := true;
    }

    /** `proof_of_work`: try 0, 1, 2, ... until the puzzle holds. The ghost
        `bound` is a proof known to work, which makes the search finite. */
    method ProofOfWork(lastProof: int, ghost bound: nat) returns (proof: nat)
      requires ValidProof(hashing, lastProof, bound)
      ensures ValidProof(hashing, lastProof, proof)
      ensures forall q: nat :: q < proof ==> !ValidProof(hashing, lastProof, q)
    {
      proof := 0;
      while !ValidProof(hashing, lastProof, proof)
        invariant proof <= bound
        invariant forall q: nat :: q < proof ==> !ValidProof(hashing, lastProof, q)
        decreases bound - proof
      {
        proof := proof + 1;
      }
    }

    /** `valid_chain`: walk the adjacent pairs and stop at the first one whose
        hash link or proof is wrong. The first block is read unguarded. */
    method ValidChain(candidate: seq<Block>) returns (valid: bool)
      requires candidate != []
      ensures valid <==> ChainValid(hashing, candidate)
    {
      var lastBlock := candidate[0];
      var currentIndex := 1;
      while currentIndex < |candidate|
        invariant 1 <= currentIndex <= |candidate|
        invariant lastBlock == candidate[currentIndex - 1]
        invariant forall i :: 0 < i < currentIndex ==> Linked(hashing, candidate[i - 1], candidate[i])
      {
        var block := candidate[currentIndex];
        if block.previousHash != BlockHash(hashing, lastBlock) {
          return false;
        }
        if !ValidProof(hashing, lastBlock.proof, block.proof) {
          return false;
        }
        lastBlock := block;
        currentIndex := currentIndex + 1;
      }
      return true;
    }

    /** `resolve_conflicts`: scan the peers' answers in registry order for the
        greatest reported length above the local one with a valid chain,
        then adopt that chain and, when the winner's `/transactions` answer
        succeeds, its pool. */
    method ResolveConflicts(answers: seq<PeerAnswer>) returns (outcome: Outcome)
      requires Valid() && |answers| == |nodes|
      modifies this
      ensures Valid()
      ensures var r := Resolve(hashing, old(chain), old(currentTransactions), answers);
              chain == r.chain && currentTransactions == r.pool && outcome == r.outcome
      ensures nodes == old(nodes)
      ensures old(nodes) == map[] ==>
                outcome == Returned(false) && chain == old(chain) && currentTransactions == old(currentTransactions)
    {
      var newChain: seq<Block> := [];
      var maxLength := |chain|;
      var winner: Option<nat> := None;
      var i := 0;
      while i < |answers|
        invariant 0 <= i <= |answers|
        invariant chain == old(chain) && currentTransactions == old(currentTransactions) && nodes == old(nodes)
        invariant ScanPrefix(hashing, |chain|, answers, i) == Running(maxLength, winner)
        invariant winner.None? <==> newChain == []
        invariant winner.Some? ==> winner.value < |answers| && answers[winner.value].chainReply.Response? &&
                                   newChain == answers[winner.value].chainReply.body.chain
      {
        ScanPrefixSpec(hashing, |chain|, answers, i + 1);
        match answers[i].chainReply
        case NoConnection =>
          ScanAbortPersists(hashing, |chain|, answers, i + 1, |answers|);
          return Raised(ConnectionError);
        case Response(status, payload) =>
          if status == 200 {
            var length := payload.length;
            var peerChain := payload.chain;
            if length > maxLength {
              if peerChain == [] {
                ScanAbortPersists(hashing, |chain|, answers, i + 1, |answers|);
                return Raised(IndexError);
              }
              var ok := ValidChain(peerChain);
              if ok {
                maxLength := length;
                newChain := peerChain;
                winner := Some(i);
              }
            }
          }
        i := i + 1;
      }
      if newChain != [] {
        chain := newChain;
        match answers[winner.value].poolReply
        case NoConnection =>
          return Raised(ConnectionError);
        case Response(status, transactions) =>
          if status == 200 {
            currentTransactions := transactions;
          }
        return Returned(true);
      }
      return Returned(false);
    }
  }

  /** The first scenario the ledger is meant to support: a transfer submitted
      to a fresh ledger and mined with a proof that solves the puzzle ends up
      alone in block 2, linked to the genesis block, and the pool is empty. */
  method MineOneTransfer(hashing: Hashing, start: Timestamp, later: Timestamp, ghost bound: nat)
    returns (ledger: Blockchain)
    requires ValidProof(hashing, GenesisProof, bound)
    ensures |ledger.chain| == 2 && ledger.currentTransactions == []
    ensures ledger.chain[1].transactions == [Transaction("A", "B", 10, later, "")]
    ensures ledger.chain[1].previousHash == BlockHash(hashing, Genesis(start))
    ensures ChainValid(hashing, ledger.chain)
  {
    ledger := new Blockchain(hashing, start);
    var proof := ledger.ProofOfWork(ledger.LastBlock().proof, bound);
    var _ := ledger.NewTransaction("A", "B", 10, later, "");
    var _ := ledger.NewBlock(proof, None, later);
  }
}
