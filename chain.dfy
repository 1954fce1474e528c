/** The values of the ledger (transactions and blocks), the two hashes it is
    built on, and the pure rules the `Blockchain` object follows: the
    proof-of-work puzzle, chain validity, the block `new_block` mints and the
    fork choice `resolve_conflicts` makes over the peers' answers. */
module Chain {
  import opened Text

  /** `time()` values are only stored and hashed, never computed on. */
  type Timestamp(==)

  datatype Transaction = Transaction(
    sender: string,
    recipient: string,
    amount: int,
    timestamp: Timestamp,
    signature: string)

  datatype Block = Block(
    index: int,
    timestamp: Timestamp,
    transactions: seq<Transaction>,
    proof: int,
    previousHash: string)

  /** The hashing the ledger is built on, left uninterpreted: SHA-256 as a
      deterministic map from text to a hex digest, and the canonical
      `json.dumps(dict(block), sort_keys=True)` rendering of a block. */
  datatype Hashing = Hashing(sha256: string -> HexDigest, canonicalJson: Block -> string)

  /** `Blockchain.hash`: the digest of a block's canonical JSON text. */
  function BlockHash(h: Hashing, b: Block): HexDigest {
    h.sha256(h.canonicalJson(b))
  }

  /** The `previous_hash` of the genesis block (the integer 1 in the source,
      which no 64-digit digest can equal). */
  const GenesisPreviousHash: string := "1"
  const GenesisProof: int := 100

  /** The number of leading hex digits that must be zero. */
  const Difficulty: nat := 4

  /** The text the puzzle hashes: the two proofs' decimals, concatenated. */
  function ProofText(lastProof: int, proof: int): string {
    IntText(lastProof) + IntText(proof)
  }

  /** `valid_proof`: the first four hex digits of the digest, read as a
      hexadecimal number, are zero. */
  predicate ValidProof(h: Hashing, lastProof: int, proof: int) {
    HexValue(h.sha256(ProofText(lastProof, proof))[..Difficulty]) == 0
  }

  /** The puzzle holds exactly when the digest starts with `Difficulty`
      `0` digits. */
  lemma ValidProofIffZeroPrefix(h: Hashing, lastProof: int, proof: int)
    ensures ValidProof(h, lastProof, proof) <==>
            forall i :: 0 <= i < Difficulty ==> h.sha256(ProofText(lastProof, proof))[i] == '0'
  {
    var d := h.sha256(ProofText(lastProof, proof));
    HexValueZero(d[..Difficulty]);
    assert forall i :: 0 <= i < Difficulty ==> d[..Difficulty][i] == d[i];
  }

  /** The puzzle sees only the concatenated text, so (1, 23) and (12, 3)
      always get the same answer. */
  lemma ValidProofSeesOnlyText(h: Hashing)
    ensures ValidProof(h, 1, 23) == ValidProof(h, 12, 3)
  {
    assert NatText(23) == "23";
    assert NatText(12) == "12";
    assert ProofText(1, 23) == "123" == ProofText(12, 3);
  }

  /** One adjacent pair of a chain as `valid_chain` checks it. */
  predicate Linked(h: Hashing, prev: Block, cur: Block) {
    cur.previousHash == BlockHash(h, prev) && ValidProof(h, prev.proof, cur.proof)
  }

  /** The chain invariant: every block links to its predecessor's hash and
      solves the puzzle against its predecessor's proof. */
  predicate ChainValid(h: Hashing, chain: seq<Block>) {
    forall i :: 0 < i < |chain| ==> Linked(h, chain[i - 1], chain[i])
  }

  /** Nothing about the first block is checked: any single block is a valid
      chain, whatever its index, proof or previous hash. */
  lemma {:induction false} AnySingleBlockIsValid(h: Hashing, b: Block)
    ensures ChainValid(h, [b])
  {
  }

  /** Validity of a chain extended by one block is validity of the chain plus
      the new link. */
  lemma ChainValidAppend(h: Hashing, chain: seq<Block>, b: Block)
    requires chain != []
    ensures ChainValid(h, chain + [b]) <==>
            ChainValid(h, chain) && Linked(h, chain[|chain| - 1], b)
  {
    var c := chain + [b];
    assert forall i :: 0 <= i < |chain| ==> c[i] == chain[i];
    if ChainValid(h, c) {
      assert Linked(h, c[|chain| - 1], c[|chain|]);
    }
  }

  /** A block whose recorded predecessor hash was altered breaks the chain. */
  lemma TamperedHashInvalid(h: Hashing, chain: seq<Block>, i: nat, forged: string)
    requires 0 < i < |chain|
    requires forged != BlockHash(h, chain[i - 1])
    ensures !ChainValid(h, chain[i := chain[i].(previousHash := forged)])
  {
    var c := chain[i := chain[i].(previousHash := forged)];
    assert !Linked(h, c[i - 1], c[i]);
  }

  /** A block whose proof was altered to one that fails the puzzle breaks
      the chain. */
  lemma TamperedProofInvalid(h: Hashing, chain: seq<Block>, i: nat, forged: int)
    requires 0 < i < |chain|
    requires !ValidProof(h, chain[i - 1].proof, forged)
    ensures !ChainValid(h, chain[i := chain[i].(proof := forged)])
  {
    var c := chain[i := chain[i].(proof := forged)];
    assert !Linked(h, c[i - 1], c[i]);
  }

  datatype Option<T> = None | Some(value: T)

  /** Python's truthiness of the optional `previous_hash` argument. */
  predicate Truthy(s: Option<string>) {
    s.Some? && s.value != ""
  }

  /** The block `new_block` appends to `chain`, given the pool it drains. */
  function Mint(h: Hashing, chain: seq<Block>, pool: seq<Transaction>, proof: int,
                previousHash: Option<string>, now: Timestamp): (b: Block)
    requires Truthy(previousHash) || chain != []
    ensures b.index == |chain| + 1 && b.transactions == pool && b.proof == proof
    ensures b.timestamp == now
    ensures Truthy(previousHash) ==> b.previousHash == previousHash.value
    ensures !Truthy(previousHash) ==> b.previousHash == BlockHash(h, chain[|chain| - 1])
  {
    Block(|chain| + 1, now, pool, proof,
          if Truthy(previousHash) then previousHash.value else BlockHash(h, chain[|chain| - 1]))
  }

  /** The one block of the chain the constructor creates. */
  function Genesis(now: Timestamp): Block {
    Block(1, now, [], GenesisProof, GenesisPreviousHash)
  }

  /** The genesis block is what minting on an empty ledger with
      `previous_hash = 1` and proof 100 gives, whatever the hashing. */
  lemma GenesisIsMinted(h: Hashing, now: Timestamp)
    ensures Mint(h, [], [], GenesisProof, Some(GenesisPreviousHash), now) == Genesis(now)
  {
  }

  /** Minting on a valid chain with the default previous hash and a proof
      that solves the puzzle keeps the chain valid. */
  lemma MintKeepsChainValid(h: Hashing, chain: seq<Block>, pool: seq<Transaction>,
                            proof: int, now: Timestamp)
    requires chain != [] && ChainValid(h, chain)
    requires ValidProof(h, chain[|chain| - 1].proof, proof)
    ensures ChainValid(h, chain + [Mint(h, chain, pool, proof, None, now)])
  {
    ChainValidAppend(h, chain, Mint(h, chain, pool, proof, None, now));
  }

  /** One round of mining: the pool drained and the proof found. */
  datatype Round = Round(pool: seq<Transaction>, proof: int, now: Timestamp)

  /** The chain after the genesis block and then `new_block(proof)` once per
      round, each with the default previous hash. */
  function Mined(h: Hashing, start: Timestamp, rounds: seq<Round>): (chain: seq<Block>)
    ensures |chain| == |rounds| + 1
    ensures chain[0] == Genesis(start)
    decreases |rounds|
  {
    if rounds == [] then [Genesis(start)]
    else
      var prior := Mined(h, start, rounds[..|rounds| - 1]);
      var r := rounds[|rounds| - 1];
      prior + [Mint(h, prior, r.pool, r.proof, None, r.now)]
  }

  /** Each round's proof solves the puzzle against the previous block's. */
  predicate ProofsSolvePuzzle(h: Hashing, rounds: seq<Round>) {
    (rounds != [] ==> ValidProof(h, GenesisProof, rounds[0].proof)) &&
    forall k :: 0 < k < |rounds| ==> ValidProof(h, rounds[k - 1].proof, rounds[k].proof)
  }

  /** A chain grown from genesis only by mining with puzzle-solving proofs
      passes `valid_chain`, and its indices count up from 1. */
  lemma {:induction false} MinedChainValid(h: Hashing, start: Timestamp, rounds: seq<Round>)
    requires ProofsSolvePuzzle(h, rounds)
    ensures ChainValid(h, Mined(h, start, rounds))
    ensures forall i :: 0 <= i < |rounds| + 1 ==> Mined(h, start, rounds)[i].index == i + 1
    decreases |rounds|
  {
    if rounds != [] {
      var init := rounds[..|rounds| - 1];
      assert ProofsSolvePuzzle(h, init) by {
        assert forall k :: 0 <= k < |init| ==> init[k] == rounds[k];
      }
      MinedChainValid(h, start, init);
      var prior := Mined(h, start, init);
      var r := rounds[|rounds| - 1];
      assert prior[|prior| - 1].proof == if init == [] then GenesisProof else init[|init| - 1].proof;
      MintKeepsChainValid(h, prior, r.pool, r.proof, r.now);
      var c := Mined(h, start, rounds);
      assert forall i :: 0 <= i < |prior| ==> c[i] == prior[i];
    }
  }

  // ---------------------------------------------------------------------
  // Fork choice: `resolve_conflicts` over the peers' answers.

  /** What a `requests.get` produced: no connection (it raises), or a
      response with a status code and a decoded JSON body. */
  datatype Reply<T> = NoConnection | Response(status: int, body: T)

  /** The body of a peer's `/chain` answer: its reported length and chain. */
  datatype ChainPayload = ChainPayload(length: int, chain: seq<Block>)

  /** What one registered peer answers, in registry order: `/chain`, and
      `/transactions` should it win. */
  datatype PeerAnswer = PeerAnswer(chainReply: Reply<ChainPayload>, poolReply: Reply<seq<Transaction>>)

  /** The exceptions that escape `resolve_conflicts`. */
  datatype Failure = ConnectionError | IndexError

  /** The loop's state: the longest reported length accepted so far and the
      peer that reported it, or the exception that ended the loop. */
  datatype Scan = Running(maxLength: int, winner: Option<nat>) | Aborted(failure: Failure)

  /** A peer the fork choice may adopt: it answered `200`, reports a length
      above the local one, and sends a non-empty chain that `valid_chain`
      accepts. */
  predicate Eligible(h: Hashing, localLength: int, a: PeerAnswer) {
    a.chainReply.Response? && a.chainReply.status == 200 &&
    a.chainReply.body.length > localLength &&
    a.chainReply.body.chain != [] && ChainValid(h, a.chainReply.body.chain)
  }

  /** One iteration of the loop over the peers. */
  function ScanStep(h: Hashing, s: Scan, a: PeerAnswer, k: nat): (r: Scan)
    ensures s.Aborted? ==> r == s
    ensures s.Running? && r.Running? ==>
              r.maxLength >= s.maxLength &&
              (r == s || (Eligible(h, s.maxLength, a) && r == Running(a.chainReply.body.length, Some(k))))
    ensures s.Running? && r.Aborted? ==>
              a.chainReply.NoConnection? ||
              (a.chainReply.status == 200 && a.chainReply.body.chain == [] &&
               a.chainReply.body.length > s.maxLength)
  {
    match s
    case Aborted(_) => s
    case Running(maxLength, _) =>
      match a.chainReply
      case NoConnection => Aborted(ConnectionError)
      case Response(status, payload) =>
        if status != 200 || payload.length <= maxLength then s
        else if payload.chain == [] then Aborted(IndexError)
        else if ChainValid(h, payload.chain) then Running(payload.length, Some(k))
        else s
  }

  /** The loop's state after the first `n` peers. */
  function ScanPrefix(h: Hashing, localLength: int, answers: seq<PeerAnswer>, n: nat): Scan
    requires n <= |answers|
  {
    if n == 0 then Running(localLength, None)
    else ScanStep(h, ScanPrefix(h, localLength, answers, n - 1), answers[n - 1], n - 1)
  }

  /** What the scan keeps: the running maximum bounds every eligible peer
      seen, and the winner is the first eligible peer reporting it. */
  lemma {:induction false} ScanPrefixSpec(h: Hashing, localLength: int, answers: seq<PeerAnswer>, n: nat)
    requires n <= |answers|
    ensures var s := ScanPrefix(h, localLength, answers, n);
      s.Running? ==>
        s.maxLength >= localLength &&
        (s.winner.None? ==> s.maxLength == localLength) &&
        (s.winner.Some? ==>
          s.winner.value < n && Eligible(h, localLength, answers[s.winner.value]) &&
          s.maxLength == answers[s.winner.value].chainReply.body.length &&
          forall j :: 0 <= j < s.winner.value && Eligible(h, localLength, answers[j]) ==>
            answers[j].chainReply.body.length < s.maxLength) &&
        forall j :: 0 <= j < n && Eligible(h, localLength, answers[j]) ==>
          answers[j].chainReply.body.length <= s.maxLength
  {
    if n > 0 {
      ScanPrefixSpec(h, localLength, answers, n - 1);
    }
  }

  /** Once the loop raised, it stays raised. */
  lemma {:induction false} ScanAbortPersists(h: Hashing, localLength: int, answers: seq<PeerAnswer>, m: nat, n: nat)
    requires m <= n <= |answers|
    requires ScanPrefix(h, localLength, answers, m).Aborted?
    ensures ScanPrefix(h, localLength, answers, n) == ScanPrefix(h, localLength, answers, m)
    decreases n
  {
    if n > m {
      ScanAbortPersists(h, localLength, answers, m, n - 1);
    }
  }

  /** A peer that cannot be reached makes the whole loop raise. */
  lemma UnreachablePeerRaises(h: Hashing, localLength: int, answers: seq<PeerAnswer>, j: nat)
    requires j < |answers| && answers[j].chainReply.NoConnection?
    ensures ScanPrefix(h, localLength, answers, |answers|).Aborted?
  {
    ScanAbortPersists(h, localLength, answers, j + 1, |answers|);
  }

  /** Every peer answered and no successful answer carries an empty chain:
      the loop runs to the end. */
  lemma {:induction false} ScanCompletes(h: Hashing, localLength: int, answers: seq<PeerAnswer>, n: nat)
    requires n <= |answers|
    requires forall j :: 0 <= j < |answers| ==> answers[j].chainReply.Response?
    requires forall j :: 0 <= j < |answers| && answers[j].chainReply.status == 200 ==>
               answers[j].chainReply.body.chain != []
    ensures ScanPrefix(h, localLength, answers, n).Running?
  {
    if n > 0 {
      ScanCompletes(h, localLength, answers, n - 1);
    }
  }

  /** The loop raises only for an unreachable peer or for an empty chain
      sent with a reported length above the local one. */
  lemma {:induction false} ScanAbortCause(h: Hashing, localLength: int, answers: seq<PeerAnswer>, n: nat)
    requires n <= |answers|
    requires ScanPrefix(h, localLength, answers, n).Aborted?
    ensures exists j :: 0 <= j < n &&
              (answers[j].chainReply.NoConnection? ||
               (answers[j].chainReply.status == 200 && answers[j].chainReply.body.chain == [] &&
                answers[j].chainReply.body.length > localLength))
  {
    var prev := ScanPrefix(h, localLength, answers, n - 1);
    if prev.Aborted? {
      ScanAbortCause(h, localLength, answers, n - 1);
    } else {
      ScanPrefixSpec(h, localLength, answers, n - 1);
      assert 0 <= n - 1 < n;
    }
  }

  /** What `resolve_conflicts` returns, or the exception it raises. */
  datatype Outcome = Returned(replaced: bool) | Raised(failure: Failure)

  /** The ledger state `resolve_conflicts` leaves and what it gives back. */
  datatype Resolution = Resolution(chain: seq<Block>, pool: seq<Transaction>, outcome: Outcome)

  /** The fork choice as a function of the local state and the answers. */
  function Resolve(h: Hashing, chain: seq<Block>, pool: seq<Transaction>, answers: seq<PeerAnswer>): (r: Resolution)
    ensures ScanPrefix(h, |chain|, answers, |answers|).Aborted? ==>
              r.chain == chain && r.pool == pool &&
              r.outcome == Raised(ScanPrefix(h, |chain|, answers, |answers|).failure)
    ensures r.outcome == Returned(false) ==> r.chain == chain && r.pool == pool
    ensures answers == [] ==> r == Resolution(chain, pool, Returned(false))
  {
    var s := ScanPrefix(h, |chain|, answers, |answers|);
    ScanPrefixSpec(h, |chain|, answers, |answers|);
    match s
    case Aborted(f) => Resolution(chain, pool, Raised(f))
    case Running(_, None) => Resolution(chain, pool, Returned(false))
    case Running(_, Some(k)) =>
      var adopted := answers[k].chainReply.body.chain;
      match answers[k].poolReply
      case NoConnection => Resolution(adopted, pool, Raised(ConnectionError))
      case Response(status, txs) => Resolution(adopted, if status == 200 then txs else pool, Returned(true))
  }

  /** The fork choice when the loop completes: the local chain is replaced
      exactly when some peer is eligible; the adopted chain is the one of the
      first peer reporting the greatest length; the pool follows the winner
      only when its `/transactions` answer succeeds; otherwise nothing
      changes. */
  lemma ResolveSpec(h: Hashing, chain: seq<Block>, pool: seq<Transaction>, answers: seq<PeerAnswer>)
    requires ScanPrefix(h, |chain|, answers, |answers|).Running?
    ensures var r := Resolve(h, chain, pool, answers);
      ((exists j :: 0 <= j < |answers| && Eligible(h, |chain|, answers[j])) <==>
         r.outcome != Returned(false)) &&
      (r.outcome == Returned(false) ==> r.chain == chain && r.pool == pool) &&
      (r.outcome != Returned(false) ==>
        exists k :: 0 <= k < |answers| && Eligible(h, |chain|, answers[k]) &&
          r.chain == answers[k].chainReply.body.chain &&
          (forall j :: 0 <= j < |answers| && Eligible(h, |chain|, answers[j]) ==>
             answers[j].chainReply.body.length <= answers[k].chainReply.body.length) &&
          (forall j :: 0 <= j < k && Eligible(h, |chain|, answers[j]) ==>
             answers[j].chainReply.body.length < answers[k].chainReply.body.length) &&
          (r.outcome == Returned(true) <==> answers[k].poolReply.Response?) &&
          (answers[k].poolReply.Response? && answers[k].poolReply.status == 200 ==>
             r.pool == answers[k].poolReply.body) &&
          (!(answers[k].poolReply.Response? && answers[k].poolReply.status == 200) ==> r.pool == pool))
  {
    ScanPrefixSpec(h, |chain|, answers, |answers|);
  }

  /** The length compared is the one the peer reports, not the length of the
      chain it sends: a single-block chain announced as five blocks long
      replaces a local chain of two. */
  lemma ReportedLengthCanShorten(h: Hashing, chain: seq<Block>, pool: seq<Transaction>, b: Block)
    requires |chain| == 2
    ensures var answers := [PeerAnswer(Response(200, ChainPayload(5, [b])), Response(200, []))];
      var r := Resolve(h, chain, pool, answers);
      r.outcome == Returned(true) && r.chain == [b] && |r.chain| < |chain| && r.pool == []
  {
    var answers := [PeerAnswer(Response(200, ChainPayload(5, [b])), Response(200, []))];
    AnySingleBlockIsValid(h, b);
    assert ScanPrefix(h, |chain|, answers, 1) == Running(5, Some(0));
  }

  /** Two peers answer a ledger holding two blocks: one with a valid chain of
      five blocks, one with an invalid chain of three. The five-block chain
      is adopted as sent, and so is that peer's pool. */
  lemma LongerValidChainAdopted(h: Hashing, chain: seq<Block>, pool: seq<Transaction>,
                                longer: seq<Block>, broken: seq<Block>, peerPool: seq<Transaction>)
    requires |chain| == 2 && |longer| == 5 && |broken| == 3
    requires ChainValid(h, longer) && !ChainValid(h, broken)
    ensures var answers := [PeerAnswer(Response(200, ChainPayload(5, longer)), Response(200, peerPool)),
                            PeerAnswer(Response(200, ChainPayload(3, broken)), Response(200, []))];
      Resolve(h, chain, pool, answers) == Resolution(longer, peerPool, Returned(true))
  {
    var answers := [PeerAnswer(Response(200, ChainPayload(5, longer)), Response(200, peerPool)),
                    PeerAnswer(Response(200, ChainPayload(3, broken)), Response(200, []))];
    assert ScanPrefix(h, 2, answers, 1) == Running(5, Some(0));
    assert ScanPrefix(h, 2, answers, 2) == Running(5, Some(0));
  }
}
