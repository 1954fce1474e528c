# A proof-of-work ledger and its DNS query encoder, in Dafny

This project models the core of a small peer-to-peer blockchain node and of
the DNS query encoder that ships beside it.

The node keeps three things:
- a chain of blocks;
- a pool of pending transactions;
- a registry of peers.

Every block after the first is linked to the one before it in two ways:
- it stores the SHA-256 hex digest of its predecessor's canonical JSON;
- its proof solves a puzzle set by the predecessor's proof. The puzzle: the
  digest of the decimal text `f'{last_proof}{proof}'` begins with four zero
  hex digits.

Mining appends a block holding the whole pool and empties the pool. When
forks meet, the node asks every registered peer for its chain. It adopts the
valid chain of the first peer reporting the greatest length above its own;
the length compared is the one the peer reports. It also takes that peer's
pool, but only when the peer's `/transactions` reply has status 200.

The DNS encoder writes a query header into bytes: the 16-bit id, the two
flag bytes, and the four section counts. The question section writes
nothing yet.

The model is split into four modules:

- `Text` (`text.dfy`): Python's decimal rendering of an integer, and
  `int(s, 16)` on hexadecimal digits. It also gives the shape of a
  `hexdigest()`: 64 lower-case hex digits.
- `Chain` (`chain.dfy`): the pure definitions and their lemmas.
  - Blocks and transactions are values.
  - SHA-256 and JSON canonicalisation are uninterpreted: they are the
    fields of a `Hashing` value. Every lemma holds for any hash function
    with that shape.
  - The puzzle, chain validity, and minting.
  - The fork choice as a fold over the peers' answers. `ScanPrefix` is the
    loop's state after each peer; `Resolve` is the final state and result.
- `Ledger` (`ledger.dfy`): the `Blockchain` object as a class.
  - Its fields `chain`, `currentTransactions` and `nodes` are reassigned by
    its methods.
  - Each method is proved against the `Chain` functions.
  - The peer's HTTP replies are parameters: either an answer with a status
    and a body, or a connection failure.
- `Dns` (`dns.dfy`): the flags, header, question and message encoders.
  - Python's `<<`, `>>`, `& 0x1` and `|` are written out on integers.
  - Each encoder has a decoder, and round trips are proved in both
    directions.

Points where the code behaves in ways a reader may not expect, all kept in
the model:

- **Unreachable peer during fork choice.** The `requests.get` at
  final/core/blockchain.py:154 is not caught, so one unreachable peer makes
  the whole resolution raise. The model returns `Raised(ConnectionError)`.
- **Peer with an empty chain.** A successful reply with an empty chain and
  a reported length above the current maximum makes `valid_chain` read
  `chain[0]` (final/core/blockchain.py:127, called at line 158). The model
  returns `Raised(IndexError)`.
- **Reported versus actual length.** The length compared at
  final/core/blockchain.py:158 is the one the peer *reports*, not the length
  of the chain it sends. A short chain announced as long can replace a
  longer local one (`Chain.ReportedLengthCanShorten`).
- **Replacement is not all-or-nothing.** The chain is replaced at
  final/core/blockchain.py:164 before the winner's `/transactions` request
  at line 172. When that request fails to connect, the call raises with the
  new chain already in place.
- **Partial registry entry.** The entry is created with the uuid at
  final/core/blockchain.py:95-97, before `/publickey` is asked for. When
  that request then fails, the entry holding only the uuid stays behind.

The peers' answers to `resolve_conflicts` are a list: `answers[i]` is the
reply of the i-th registered address, in the registry's iteration order, so
there are exactly as many answers as registered peers.

## Model

| member | source | states |
|---|---|---|
| Text.NatText | final/core/blockchain.py:194 | the decimal text of a non-negative integer is non-empty, all digits, and starts with `0` only for zero |
| Text.DecimalRoundTrip | final/core/blockchain.py:194 | reading the decimal text back gives the number |
| Text.NatTextInjective | final/core/blockchain.py:194 | two different numbers never render to the same text |
| Text.IntText | final/core/blockchain.py:194 | `f'{n}'` for any integer is non-empty, starts with `-` exactly when `n` is negative, and is digits after that |
| Text.HexDigitValue | final/core/blockchain.py:197 | a hex digit's value is below 16 and is zero exactly for `0` |
| Text.HexValue | final/core/blockchain.py:197 | `int(s, 16)` on a string of hex digits, most significant digit first; characterised by `HexValueZero` |
| Text.HexValueZero | final/core/blockchain.py:197 | `int(s, 16)` is zero exactly when every digit of `s` is `0` |
| Chain.ValidProof | final/core/blockchain.py:186-197 | `valid_proof`: the integer value of the first `Difficulty` (4) hex digits of the digest of `ProofText` is zero; characterised by `ValidProofIffZeroPrefix` |
| Chain.ValidProofIffZeroPrefix | final/core/blockchain.py:186-197 | `ValidProof` holds exactly when the first `Difficulty` (4) digits of the digest of `f'{last_proof}{proof}'` are all `0` |
| Chain.ProofText | final/core/blockchain.py:194 | `f'{last_proof}{proof}'`: the decimal text of the last proof followed by that of the candidate, with no separator |
| Chain.ValidProofSeesOnlyText | final/core/blockchain.py:194-197 | the puzzle sees only the concatenated text, so (1, 23) and (12, 3) are the same puzzle |
| Chain.BlockHash | final/core/blockchain.py:181-184 | `hash`: the SHA-256 hex digest of the block's canonical JSON, both uninterpreted; a `HexDigest` of 64 lower-case hex digits by its type |
| Chain.ChainValid | final/core/blockchain.py:121-143 | the criterion `valid_chain` checks: every adjacent pair is linked by the predecessor's hash and a proof solving its puzzle; characterised by `ChainValidAppend` and proved equal to `Ledger.Blockchain.ValidChain` |
| Chain.Linked | final/core/blockchain.py:134-140 | one adjacent pair passes `valid_chain`'s two tests: the block stores the predecessor's hash, and its proof solves the predecessor's puzzle |
| Chain.AnySingleBlockIsValid | final/core/blockchain.py:127-129 | a one-block chain is valid whatever the block holds, because only adjacent pairs are checked |
| Chain.ChainValidAppend | final/core/blockchain.py:121-143 | a valid chain stays valid after one more block exactly when that block links to the last block's hash and solves its puzzle |
| Chain.TamperedHashInvalid | final/core/blockchain.py:134-137 | replacing any block's `previous_hash` with a value other than its predecessor's hash makes the chain invalid |
| Chain.TamperedProofInvalid | final/core/blockchain.py:138-140 | replacing any block's proof with one that fails the predecessor's puzzle makes the chain invalid |
| Chain.Truthy | final/core/blockchain.py:60 | the `or` at line 60 keeps the given previous hash exactly when it is present and non-empty |
| Chain.Mint | final/core/blockchain.py:55-61 | a minted block has index `len(chain) + 1`, the given time and proof, the whole pool, and the given previous hash if truthy, else the last block's hash |
| Chain.Genesis | final/core/blockchain.py:39-46 | the block the constructor mints: index 1, no transactions, proof 100, previous hash `1` |
| Chain.GenesisIsMinted | final/core/blockchain.py:43-46 | the genesis block is exactly what `new_block(proof=100, previous_hash=1)` mints on an empty ledger, whatever the hashing |
| Chain.MintKeepsChainValid | final/core/blockchain.py:49-64 | minting with a proof that solves the last block's puzzle keeps a valid chain valid |
| Chain.Mined | final/core/blockchain.py:39-64 | a ledger mined for n rounds holds n + 1 blocks and starts with the genesis block |
| Chain.MinedChainValid | final/core/blockchain.py:39-64 | when every round's proof solves the puzzle, the mined chain is valid and block i has index i + 1 |
| Chain.ScanStep | final/core/blockchain.py:154-161 | one iteration: a raised loop stays raised; a running one keeps its state or moves to the current peer, which must be eligible against the running maximum, so the maximum never drops; it raises only for an unreachable peer or an empty chain reported longer than the maximum |
| Chain.Eligible | final/core/blockchain.py:155-158 | a peer can win against a maximum exactly when its reply has status 200, its reported length exceeds the maximum, and its chain is non-empty and valid |
| Chain.ScanPrefix | final/core/blockchain.py:149-161 | the loop's state after the first n peers, starting from the local length and no winner; characterised by `ScanPrefixSpec` |
| Chain.ScanPrefixSpec | final/core/blockchain.py:149-161 | after each peer, the running maximum is at least the local length and bounds every eligible peer seen; the winner is eligible, reports the maximum, and is the first peer to do so |
| Chain.ScanAbortPersists | final/core/blockchain.py:153-161 | once the loop over the peers raises, it stays raised |
| Chain.UnreachablePeerRaises | final/core/blockchain.py:154 | a single unreachable peer makes the whole resolution raise |
| Chain.ScanCompletes | final/core/blockchain.py:153-161 | if every peer answers and no successful answer carries an empty chain, the loop completes |
| Chain.ScanAbortCause | final/core/blockchain.py:153-161 | the loop raises only for an unreachable peer, or for an empty chain reported longer than the local one |
| Chain.Resolve | final/core/blockchain.py:145-179 | the ledger state and result `resolve_conflicts` leaves: a raise inside the loop leaves chain and pool unchanged and raises the loop's error; returning false leaves both unchanged; with no peers it returns false and changes nothing |
| Chain.ResolveSpec | final/core/blockchain.py:145-179 | when the loop completes: the chain is replaced exactly when some peer is eligible; the chain adopted is that of the first peer with the greatest reported length; the pool follows that peer only on a `200` reply; nothing changes otherwise |
| Chain.ReportedLengthCanShorten | final/core/blockchain.py:156-171 | a one-block chain reported as five blocks long replaces a local chain of two |
| Chain.LongerValidChainAdopted | final/core/blockchain.py:145-179 | with a valid five-block peer and an invalid three-block peer, a two-block ledger adopts the five-block chain and that peer's pool, and returns true |
| Ledger.Blockchain.LastBlock | final/core/blockchain.py:198-200 | `last_block`: a block of the chain that is its final element |
| Ledger.Blockchain.constructor | final/core/blockchain.py:39-46 | a new ledger holds one valid genesis block (index 1, proof 100, previous hash `1`, no transactions), an empty pool and no peers |
| Ledger.Blockchain.NewBlock | final/core/blockchain.py:49-64 | appends the minted block, empties the pool, leaves the registry alone, makes the block the last block, and keeps the chain valid when the proof solves the puzzle |
| Ledger.Blockchain.NewTransaction | final/core/blockchain.py:66-77 | appends exactly the given transaction to the pool, changes nothing else, and returns the index of the next block |
| Ledger.Blockchain.RegisterNode | final/core/blockchain.py:79-108 | a failed `/uuid` leaves the registry unchanged; a successful one records the uuid at `domain:port`; the key is recorded and registration succeeds only if `/publickey` also succeeds |
| Ledger.Blockchain.ProofOfWork | final/core/blockchain.py:110-119 | returns the least non-negative proof that solves the puzzle |
| Ledger.Blockchain.ValidChain | final/core/blockchain.py:121-143 | returns true exactly when every adjacent pair of the non-empty candidate is linked by hash and proof |
| Ledger.Blockchain.ResolveConflicts | final/core/blockchain.py:145-179 | takes one answer per registered peer; leaves the chain, the pool and the result that `Resolve` gives for those answers; never changes the registry; with no registered peers returns false and changes nothing |
| Ledger.MineOneTransfer | final/core/blockchain.py:39-77 | on a new ledger, one transfer mined with a solving proof ends up alone in block 2, which links to the genesis hash; the pool is empty and the chain valid |
| Dns.Bit | core/dns.py:20-23 | `x >> k & 0x1` is 0 or 1 |
| Dns.BitOr | core/dns.py:19-38 | Python's bitwise or on non-negative integers, bit by bit from the lowest; characterised by `BitOrBelow` |
| Dns.BitOrBelow | core/dns.py:19-27 | or-ing a single bit into a number whose bits lie above it is addition |
| Dns.OrBits | core/dns.py:19-38 | the eight shifted operands or-ed left to right, as in each `append` of `to_bytes`; equal to the weighted sum by `OrBitsSum` |
| Dns.OrBitsSum | core/dns.py:19-38 | the left-to-right or-chain of eight shifted single bits equals their weighted sum |
| Dns.OversizedBitsOverlap | core/dns.py:25-31 | unmasked one-bit fields collide: `rd = 2` gives the same first byte as `tc = 1`, and `z = 2` the same second byte as `ra = 1` |
| Dns.FlagsWord | core/dns.py:17-39 | the two flag bytes for one-bit fields: QR, the four low opcode bits, AA, TC, RD, then RA, Z, AD, CD and the four low rcode bits, high bit first; the layout `DnsFlags.ToBytes` is proved to produce |
| Dns.DnsFlags.ToBytes | core/dns.py:17-39 | gives two bytes: QR, the four opcode bits, AA, TC, RD, then RA, Z, AD, CD and the four rcode bits, high bit first |
| Dns.DecodeFlags | core/dns.py:5-15 | reading two bytes back yields flags whose fields fit their documented widths |
| Dns.SplitHighByte | core/dns.py:19-27 | a byte laid out as one bit, a nibble and three bits gives each part back under `/` and `%` |
| Dns.SplitLowByte | core/dns.py:29-38 | a byte laid out as four bits and a nibble gives each part back under `/` and `%` |
| Dns.JoinHighByte | core/dns.py:19-27 | every byte is the weighted sum of its parts in the first flag byte's layout |
| Dns.JoinLowByte | core/dns.py:29-38 | every byte is the weighted sum of its parts in the second flag byte's layout |
| Dns.HighByteFields | core/dns.py:19-27 | the first flag byte gives back QR, opcode, AA, TC and RD |
| Dns.LowByteFields | core/dns.py:29-38 | the second flag byte gives back RA, Z, AD, CD and rcode |
| Dns.FlagsRoundTrip | core/dns.py:17-39 | decoding the encoded flags gives every field back when the fields fit |
| Dns.FlagsFromBytes | core/dns.py:17-39 | every two bytes are the encoding of the flags they decode to |
| Dns.FlagsKeepLowNibbles | core/dns.py:20-23 | only the low four bits of opcode and rcode reach the wire |
| Dns.WordBytes | core/dns.py:52-53 | `v >> 8 & 0xff, v & 0xff` are the big-endian bytes of `v` modulo 65536 |
| Dns.Word | core/dns.py:52-53 | the high and the low byte of a value modulo 65536; characterised by `WordBytes` and `WordRoundTrip` |
| Dns.WordValue | core/dns.py:52-53 | the big-endian reading of two bytes lies in 0..65535 |
| Dns.WordRoundTrip | core/dns.py:52-53 | reading back the two bytes of `v` gives `v` modulo 65536 |
| Dns.WordFromBytes | core/dns.py:52-53 | every two bytes are the encoding of their big-endian reading |
| Dns.DnsHeader.ToBytes | core/dns.py:50-64 | gives the twelve bytes: id, flags, qdcount, ancount, nscount, arcount, each 16-bit value high byte first |
| Dns.HeaderBytes | core/dns.py:50-64 | the twelve header bytes: the word of the id, the two flag bytes, then the words of the four counts; the layout `DnsHeader.ToBytes` is proved to produce |
| Dns.DecodeHeader | core/dns.py:41-48 | reading twelve bytes back yields a header whose fields fit |
| Dns.HeaderRoundTrip | core/dns.py:50-64 | decoding the encoded header gives it back when every field fits |
| Dns.HeaderFromBytes | core/dns.py:50-64 | every twelve bytes are the encoding of the header they decode to |
| Dns.DrawnIdSurvives | core/dns.py:43 | any id drawn from 0..10000 is read back unchanged from the first two bytes |
| Dns.QuestionSection.ToBytes | core/dns.py:72-75 | the question section writes no bytes |
| Dns.DnsMessage.ToBytes | core/dns.py:83-90 | the message is exactly the twelve header bytes, since no question section adds any, and it decodes back to the header when every field fits |

## Left out

- SHA-256 and `json.dumps(..., sort_keys=True)` are uninterpreted functions. The only property assumed of the digest is its shape: 64 lower-case hex digits.
- Chains from peers are modelled as blocks. Their conversion from JSON dictionaries, and the `KeyError` a malformed reply would raise, are not modelled.
- `time()` is a parameter of the operations that read it.
- `uuid4`, `print` and the `requests` library are not modelled. Each HTTP reply is a parameter: a connection failure, or a status with its body. Timeouts and other `requests` exceptions count as connection failures.
- `DNS.domain_to_ip` and `DNS.ip_to_domain` always raise. `RegisterNode` uses the domain as given, which is what the source does after that failure.
- The UDP `communicate` function is I/O and is not modelled.
- The RPC server files are not part of this model.
- Concurrent access to one ledger is not modelled.
- Ledger.Blockchain.RegisterNode: a failed registration returns `false` instead of raising `Exception("Cannot register node")`. The registry state it leaves is modelled exactly.
- Ledger.Blockchain.ProofOfWork: takes a ghost proof known to solve the puzzle, so that the search provably ends. The source loops forever when no proof exists.
- Ledger.Blockchain.constructor: the genesis previous hash is the text `1`, where the source passes the integer 1. Both are truthy, but `json.dumps` writes them differently (`1` and `"1"`), so the real genesis digest, which block 2 stores, differs. The model cannot see the difference only because `canonicalJson` is uninterpreted.
- Dns.DnsFlags.ToBytes: requires the eight one-bit fields to be 0 or 1, the widths documented at core/dns.py:6-14. The source masks none of them. A value of 2 or more in `aa`, `tc`, `rd`, `z`, `ad` or `cd` still fits the byte and is silently or-ed into a neighbouring field: `rd = 2` reads back as TC set, `z = 2` as RA set (`Dns.OversizedBitsOverlap`). Only `qr` or `ra` of 2 or more, a negative field, or a field large enough to push its byte past 255 makes `bytearray.append` raise `ValueError`. Neither the overlap nor the error is modelled by this method.
- Dns.DnsHeader.ToBytes: requires the flags' one-bit fields to be 0 or 1, as `Dns.DnsFlags.ToBytes` does, so the same overlap and `ValueError` are not modelled. Ids and counts of any size are reduced modulo 65536, as `& 0xff` does.
- Dns.DnsMessage.ToBytes: requires the header flags' one-bit fields to be 0 or 1, as `Dns.DnsFlags.ToBytes` does, so the same overlap and `ValueError` are not modelled. It also appends each section's bytes at once rather than byte by byte; the sections are empty either way.
- `random.randint(0, 10000)` in the header constructor: the drawn id is a field of the header.
- The question section constructor's `domain.split(".")`: the domain is given already split.
- The message's `(ip, port)` address: stored, never encoded.
