/** The ledger-facing part of the voting service: casting a vote (which
    seals it into a block at once), the administrator's explicit seal, and
    the results report. The voter database is abstracted to a map from voter
    id to its `has_voted` flag. */
module Voting {
  import opened Wrappers
  import opened Ledger
  import opened Tally

  /** Why a vote was refused. `UnknownVoter` stands for a token whose voter
      is not in the database, where the source fails on the missing record. */
  datatype CastError = UnknownVoter | AlreadyVoted | MissingCandidate

  /** Why the administrator's seal was refused. */
  datatype MineError = NoVotesToMine

  /** The results report: the chain, its length, the number of sealed votes,
      the per-candidate rows by decreasing count and the number of votes
      still pending. */
  datatype Report = Report(chain: seq<Block>, length: nat, totalVotes: nat, voteResults: seq<Row>, pendingVotes: nat)

  /** Every block's proof is one more than its predecessor's, starting from
      the genesis proof. */
  ghost predicate ConsecutiveProofs(chain: seq<Block>)
  {
    forall i :: 0 <= i < |chain| ==> chain[i].proof == GenesisProof + i
  }

  /** Sealing the pending votes into a block that names the hash of the last
      block and carries the last proof plus one keeps the chain linked and its
      proofs consecutive, and moves the pending votes to the end of the
      sealed ones. */
  lemma SealKeeps(hash: Block -> string, chain: seq<Block>, pending: seq<Vote>, b: Block)
    requires chain != [] && Linked(hash, chain) && ConsecutiveProofs(chain)
    requires b.votes == pending
    requires b.proof == chain[|chain| - 1].proof + 1 && b.previousHash == hash(chain[|chain| - 1])
    ensures Linked(hash, chain + [b]) && ConsecutiveProofs(chain + [b])
    ensures AllVotes(chain + [b]) == AllVotes(chain) + pending
  {
    LinkedAppend(hash, chain, b);
    AllVotesAppend(chain, b);
  }

  /** Sealing a block whose votes are the pending ones followed by a new
      vote raises the sealed count of that vote's candidate by one over what
      the ledger held before (sealed and pending), and leaves every other
      candidate's count at what the ledger held. */
  lemma SealedVoteCounted(chain: seq<Block>, pending: seq<Vote>, vote: Vote, b: Block, c: string)
    requires b.votes == pending + [vote]
    ensures CountFor(AllVotes(chain + [b]), c) ==
            CountFor(AllVotes(chain) + pending, c) + (if c == vote.candidateId then 1 else 0)
  {
    AllVotesAppend(chain, b);
    assert AllVotes(chain + [b]) == (AllVotes(chain) + pending) + [vote];
    CountForAppend(AllVotes(chain) + pending, [vote], c);
  }

  /** A new voter, absent from a duplicate-free list, keeps it
      duplicate-free. */
  lemma NoDupSnoc(voters: seq<string>, v: string)
    requires NoDup(voters) && v !in voters
    ensures NoDup(voters + [v])
  {
  }

  class VotingApp {
    /** The process-wide ledger. */
    const bc: Blockchain
    /** The one-way hash applied to a voter id before it enters a vote. */
    const fingerprint: string -> string
    /** The voter store: voter id to `has_voted`. */
    var hasVoted: map<string, bool>
    /** The votes accepted so far, in order, and the ids of their voters. */
    ghost var Cast: seq<Vote>
    ghost var Voters: seq<string>

    /** The ledger is valid and linked, proofs count up from the genesis
        proof, the ledger holds exactly the accepted votes in order (sealed
        ones first, then pending ones), and each accepted vote comes from a
        distinct voter now marked as having voted. */
    ghost predicate Valid()
      reads this, bc
    {
      && bc.Valid()
      && Linked(bc.hash, bc.chain)
      && ConsecutiveProofs(bc.chain)
      && AllVotes(bc.chain) + bc.currentVotes == Cast
      && |Voters| == |Cast|
      && (forall i :: 0 <= i < |Cast| ==> Cast[i].voterIdHash == fingerprint(Voters[i]))
      && (forall i :: 0 <= i < |Voters| ==> Voters[i] in hasVoted && hasVoted[Voters[i]])
      && NoDup(Voters)
    }

    /** Service start: a fresh ledger (genesis block only) over an existing
        voter store. */
    constructor (hash: Block -> string, fingerprint: string -> string, store: map<string, bool>, timestamp: real)
      ensures Valid() && fresh(bc)
      ensures bc.hash == hash && this.fingerprint == fingerprint
      ensures bc.chain == [Block(1, timestamp, [], GenesisProof, GenesisPreviousHash)]
      ensures bc.currentVotes == []
      ensures hasVoted == store
      ensures Cast == [] && Voters == []
    {
      bc := new Blockchain(hash, timestamp);
      this.fingerprint := fingerprint;
      hasVoted := store;
      Cast, Voters := [], [];
    }

    /** Casts the vote of `voterId` for `candidateId` and seals it into a new
        block at once, with the previous proof plus one; returns the index of
        that block. A voter who has voted already, and a missing or empty
        candidate, are refused without any change. */
    method CastVote(voterId: string, candidateId: Option<string>, timestamp: real) returns (r: Result<int, CastError>)
      requires Valid()
      modifies this, bc
      ensures Valid()
      ensures voterId !in old(hasVoted) ==> r == Failure(UnknownVoter)
      ensures voterId in old(hasVoted) && old(hasVoted)[voterId] ==> r == Failure(AlreadyVoted)
      ensures voterId in old(hasVoted) && !old(hasVoted)[voterId] && !Truthy(candidateId) ==>
              r == Failure(MissingCandidate)
      ensures r.Failure? ==>
              && hasVoted == old(hasVoted) && Cast == old(Cast) && Voters == old(Voters)
              && bc.chain == old(bc.chain) && bc.currentVotes == old(bc.currentVotes)
      ensures r.Success? ==>
              && voterId in old(hasVoted) && !old(hasVoted)[voterId] && Truthy(candidateId)
              && var vote := Vote(fingerprint(voterId), candidateId.value);
              && hasVoted == old(hasVoted)[voterId := true]
              && bc.chain == old(bc.chain) +
                   [Block(|old(bc.chain)| + 1, timestamp, old(bc.currentVotes) + [vote],
                          old(bc.LastBlock()).proof + 1, bc.hash(old(bc.LastBlock())))]
              && bc.currentVotes == []
              && r.value == |bc.chain|
              && Cast == old(Cast) + [vote] && Voters == old(Voters) + [voterId]
      ensures r.Success? <==> voterId in old(hasVoted) && !old(hasVoted)[voterId] && Truthy(candidateId)
      ensures r.Success? ==>
              forall c :: CountFor(AllVotes(bc.chain), c) ==
                          CountFor(AllVotes(old(bc.chain)) + old(bc.currentVotes), c) +
                          (if c == candidateId.value then 1 else 0)
    {
      if voterId !in hasVoted {
        return Failure(UnknownVoter);
      }
      if hasVoted[voterId] {
        return Failure(AlreadyVoted);
      }
      if !Truthy(candidateId) {
        return Failure(MissingCandidate);
      }
      var voterIdHash := fingerprint(voterId);
      var vote := Vote(voterIdHash, candidateId.value);
      assert voterId !in Voters;
      NoDupSnoc(Voters, voterId);
      var next := bc.NewVote(voterIdHash, candidateId.value);
      hasVoted := hasVoted[voterId := true];
      Cast, Voters := Cast + [vote], Voters + [voterId];

      var lastBlock := bc.LastBlock();
      var proof := lastBlock.proof + 1;
      ghost var chain0, pending0 := bc.chain, bc.currentVotes;
      var block := bc.NewBlock(proof, timestamp, None);
      SealKeeps(bc.hash, chain0, pending0, block);
      forall c
        ensures CountFor(AllVotes(bc.chain), c) ==
                CountFor(AllVotes(chain0) + old(bc.currentVotes), c) + (if c == vote.candidateId then 1 else 0)
      {
        SealedVoteCounted(chain0, old(bc.currentVotes), vote, block, c);
      }
      r := Success(block.index);
    }

    /** The administrator's seal: refuses when no vote is pending, otherwise
        seals the pending votes into a new block with the previous proof plus
        one and returns it. */
    method MineBlock(timestamp: real) returns (r: Result<Block, MineError>)
      requires Valid()
      modifies bc
      ensures Valid()
      ensures r.Failure? <==> old(bc.currentVotes) == []
      ensures r.Failure? ==> r.error == NoVotesToMine && bc.chain == old(bc.chain) && bc.currentVotes == []
      ensures r.Success? ==>
              && r.value == Block(|old(bc.chain)| + 1, timestamp, old(bc.currentVotes),
                                  old(bc.LastBlock()).proof + 1, bc.hash(old(bc.LastBlock())))
              && bc.chain == old(bc.chain) + [r.value]
              && bc.currentVotes == []
    {
      if bc.currentVotes == [] {
        return Failure(NoVotesToMine);
      }
      var lastBlock := bc.LastBlock();
      var proof := lastBlock.proof + 1;
      var block := bc.NewBlock(proof, timestamp, None);
      SealKeeps(bc.hash, old(bc.chain), old(bc.currentVotes), block);
      r := Success(block);
    }

    /** The results report: the sealed votes counted per candidate and
        ordered by decreasing count; pending votes are reported by number
        only and not counted. */
    method GetResults() returns (rep: Report)
      ensures rep.chain == bc.chain && rep.length == |bc.chain| && rep.pendingVotes == |bc.currentVotes|
      ensures rep.totalVotes == |AllVotes(bc.chain)|
      ensures rep.voteResults == Results(AllVotes(bc.chain))
      ensures NonIncreasing(rep.voteResults) && DistinctIds(rep.voteResults)
      ensures forall row :: row in rep.voteResults ==> row.votes == CountFor(AllVotes(bc.chain), row.candidateId) > 0
      ensures forall c :: CountFor(AllVotes(bc.chain), c) > 0 <==>
                          Row(c, CountFor(AllVotes(bc.chain), c)) in rep.voteResults
    {
      var voteCounts, order, totalVotes := CountVotes(bc.chain);
      var formatted := FormatResults(voteCounts, order);
      ghost var vs := AllVotes(bc.chain);
      FormattedRows(voteCounts, order, vs, formatted);
      formatted := SortByVotes(formatted);
      ResultsCorrect(vs);
      rep := Report(bc.chain, |bc.chain|, totalVotes, formatted, |bc.currentVotes|);
    }
  }
}
