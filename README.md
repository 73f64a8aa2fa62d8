# Vote ledger of a blockchain-style voting service, in Dafny

This project models the core of a small voting web service. Votes are kept in
an in-memory "blockchain": a non-empty, append-only chain of blocks. Each block
records a 1-based `index`, a `timestamp`, the `votes` it seals, a `proof` and
the `previous_hash` of the block before it. Votes wait in a buffer of pending
votes until a block is sealed.

- `ledger.dfy`, module `Ledger`, models `blockchain.py`. The class `Blockchain`
  has the fields `chain` and `currentVotes`, the methods `NewBlock`,
  `NewVote` and `ChainValid`, and the function `LastBlock`. The block hash (SHA-256 of the
  block's sorted-key JSON in the source) is a constant function field `hash`
  given at construction. Every proof therefore holds for any deterministic
  hash function.
- `voting.dfy`, module `Voting`, models the ledger-facing part of `app.py`.
  The class `VotingApp` holds the ledger and the voter store, a map from
  voter id to the `has_voted` flag. It has `CastVote` (vote, then seal at
  once), `MineBlock` (the administrator's seal) and `GetResults`. Both seals
  use the proof of the last block plus one. A ghost history of accepted votes
  and their voters gives the end-to-end invariant. The sealed votes followed
  by the pending ones are exactly the accepted votes, in order. Each accepted
  vote comes from a distinct voter, and that voter is now marked as having
  voted.
- `tally.dfy`, module `Tally`, models the counting and sorting inside
  `get_results`. The nested counting loops are `CountVotes` and
  `CountBlockVotes`. The insertion order of the counting dictionary is kept
  as a sequence. Building the rows is `FormatResults`. Python's stable
  `list.sort(key=..., reverse=True)` is modelled by a stable insertion
  sort, `SortByVotes`.
- `wrappers.dfy`, module `Wrappers`: `Option`, `Result` and Python's truth
  test on an optional string. That truth test is used for
  `previous_hash or ...` and for `if not candidate_id`.

The following are parameters: the clock (`timestamp`), the block hash and
the voter-id hash (`hash_password`).

Two behaviours of the code are kept as written:
- `new_block` accepts an explicit `previous_hash`. A truthy one is used as it
  is, and the chain is then linked only if it happens to equal the hash of
  the last block (`NewBlock`'s last postcondition says exactly when).
- Results are computed from sealed blocks only. Pending votes are reported
  by number.

## Model

| member | source | states |
|---|---|---|
| `Ledger.Blockchain.constructor` | blockchain.py:7-11 | a new ledger holds only the genesis block (index 1, no votes, proof 100, previous hash "1") and no pending votes; it is valid and linked |
| `Ledger.Blockchain.NewBlock` | blockchain.py:13-33 | appends exactly one block with index old length + 1, the given proof and timestamp, exactly the pending votes in order, and the given truthy previous hash or else the hash of the old last block; earlier blocks are unchanged, pending becomes empty; the chain stays linked iff the new link is right |
| `Ledger.Blockchain.NewVote` | blockchain.py:35-47 | appends exactly one vote to the end of pending, leaves the chain alone, returns the index the next block will get (chain length + 1) |
| `Ledger.Blockchain.LastBlock` | blockchain.py:49-51 | the final block of a non-empty chain; on a numbered chain its index is the chain length |
| `Ledger.Blockchain.ChainValid` | blockchain.py:65-87 | on a non-empty chain, returns true iff every block after the first names the hash of its predecessor (a one-block chain is valid) |
| `Ledger.LinkedAppend` | blockchain.py:21-32 | appending a block keeps a chain linked iff the block names the hash of the old last block |
| `Ledger.TamperDetected` | blockchain.py:80-82 | replacing a block that has a successor by one with a different hash makes the chain fail validation |
| `Tally.AllVotesAppend` | app.py:156-157 | the votes of a chain with one more block are the old votes followed by that block's votes |
| `Tally.CountForAppend` | app.py:156-160 | a candidate's count over two vote lists is the sum of its counts over each |
| `Tally.Candidates` | app.py:159 | the candidates of the counting dictionary: no duplicates, and a candidate is listed iff it has at least one vote |
| `Tally.CandidatesGrow` | app.py:159 | the dictionary's key order is first-vote order: the candidates of any prefix of the votes are a prefix of the candidates of all votes |
| `Tally.CountsSumToTotal` | app.py:153-160 | the counts of all listed candidates add up to the number of votes |
| `Tally.CountStep` | app.py:158-160 | one iteration of the inner counting loop keeps the dictionary, its order and the total a correct tally of the votes seen |
| `Tally.CountBlockVotes` | app.py:157-160 | the inner loop adds exactly the votes of one block to the tally |
| `Tally.CountVotes` | app.py:152-160 | the dictionary maps exactly the candidates with votes to their number of votes over all sealed blocks, in first-vote order; the total is the number of sealed votes and the sum of the counts |
| `Tally.FormatResults` | app.py:171-178 | one row per counted candidate, in dictionary order, with its count |
| `Tally.RowsFor` | app.py:172-176 | the row of each listed candidate carries its count |
| `Tally.Insert` | app.py:181 | inserting into a non-increasing list keeps it non-increasing and adds exactly one row |
| `Tally.InsertDistinct` | app.py:181 | inserting a row for a new candidate keeps candidates distinct |
| `Tally.SortByVotes` | app.py:181 | the sorted rows are in non-increasing vote order and a permutation of the input |
| `Tally.SortDistinct` | app.py:181 | sorting keeps candidates distinct |
| `Tally.InsertStable` | app.py:181 | insertion appends the row to the rows with its count and leaves other counts' rows as they were |
| `Tally.SortStable` | app.py:181 | the sort is stable: rows with equal counts keep their relative order |
| `Tally.ResultsCorrect` | app.py:156-181 | the results are ordered by non-increasing count, list each candidate at most once, list every candidate with a vote with its true count, and list no other candidate |
| `Voting.SealKeeps` | app.py:138-141 | a seal with the last proof + 1 and the hash of the last block keeps the chain linked and the proofs consecutive, and moves the pending votes after the sealed ones |
| `Voting.SealedVoteCounted` | app.py:131-141 | sealing a block that holds the pending votes and then a new vote makes each candidate's count over the chain's votes equal to its count over what the ledger held before (sealed and pending), plus one for the new vote's candidate |
| `Voting.VotingApp.constructor` | app.py:28 | a fresh ledger with the genesis block, no pending votes, no accepted votes, over the given voter store |
| `Voting.VotingApp.CastVote` | app.py:120-146 | unknown voter, already voted, and missing or empty candidate are refused in that order and change nothing. Success marks the voter as voted. It also seals one block, with the previous proof + 1 and the hash of the last block, holding the pending votes and then the new vote as its last vote. It returns that block's index, leaves pending empty and keeps every invariant. It succeeds iff the voter is known, has not voted and the candidate is truthy, and then the sealed count of the chosen candidate grows by one over what the ledger held, every other count staying at what the ledger held |
| `Voting.VotingApp.MineBlock` | app.py:192-213 | refuses iff nothing is pending and then changes nothing; otherwise seals the pending votes into one new block with the previous proof + 1 and the hash of the last block, empties pending and keeps every invariant |
| `Voting.VotingApp.GetResults` | app.py:148-190 | reports the chain and its length, the number of sealed votes as total, the number of pending votes, and the rows of `Results`: non-increasing, one per candidate with a vote, each with its true count; pending votes are not counted |

## Left out

- HTTP routing, CORS, request and response JSON, and status codes are I/O
  glue. A request body that is not JSON is part of this glue.
- JWT issuing and checking, and the `token_required` and `admin_required`
  decorators, are foreign library calls. `CastVote` takes the voter id the
  token resolved to. A token whose voter is not in the database gives
  `UnknownVoter`; the source fails there on a missing record.
- Registration, login and admin login are not modelled. They are CRUD over
  the voter database, which is abstracted to a map.
- Database sessions and commits: the voter store is a map updated in place.
- The internals of SHA-256 and `json.dumps(sort_keys=True)` are not
  modelled. Both hashes are arbitrary deterministic functions, so collision
  resistance is never assumed; `TamperDetected` states the hash difference
  it needs.
- `time()` is not modelled; the timestamp is a parameter.
- The `print` calls in `chain_valid` are I/O and are left out.
- The percentages (`round` on floats) and the static candidate-name table
  are not modelled. A result row holds the candidate id and the count.
- Candidate ids are modelled as strings (`Option<string>`, missing or
  empty refused). The source takes any JSON value for `candidateId`. A
  non-zero number is truthy and is counted as a candidate of its own. A
  non-empty list or object passes the check and is sealed into a block.
  From then on every results request fails, because it cannot be a
  dictionary key. The model does not capture these cases.
- Python's in-place Timsort is replaced by `Tally.SortByVotes`, a function
  on values. Both sorts are stable, so the result is the same.
- Concurrent requests, and aliasing of the block dictionaries returned to
  callers, are not modelled. The model is single-threaded and blocks are
  immutable values.
- `Ledger.Blockchain.ChainValid` requires a non-empty chain, and
  `Ledger.Blockchain.NewBlock` requires a non-empty chain unless a truthy
  previous hash is given. In both cases the source would raise an index
  error on `chain[0]` / `chain[-1]`.
