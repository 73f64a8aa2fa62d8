/** The in-memory vote ledger: a non-empty, append-only chain of blocks, each
    naming the hash of its predecessor, and a buffer of votes waiting to be
    sealed into the next block. */
module Ledger {
  import opened Wrappers

  /** A vote as the ledger stores it: the one-way hash of the voter's id and
      the id of the chosen candidate. */
  datatype Vote = Vote(voterIdHash: string, candidateId: string)

  /** A sealed block. `timestamp` is seconds since the epoch. */
  datatype Block = Block(index: int, timestamp: real, votes: seq<Vote>, proof: int, previousHash: string)

  /** What the genesis block carries in place of a predecessor's hash. */
  const GenesisPreviousHash: string := "1"

  /** The proof of the genesis block. */
  const GenesisProof: int := 100

  /** Blocks are numbered from 1, in chain order. */
  ghost predicate Indexed(chain: seq<Block>)
  {
    forall i :: 0 <= i < |chain| ==> chain[i].index == i + 1
  }

  /** Every block after the first names the hash of the block before it. */
  ghost predicate Linked(hash: Block -> string, chain: seq<Block>)
  {
    forall i :: 1 <= i < |chain| ==> chain[i].previousHash == hash(chain[i - 1])
  }

  /** Appending a block keeps the chain linked exactly when the new block
      names the hash of the old last block. */
  lemma LinkedAppend(hash: Block -> string, chain: seq<Block>, b: Block)
    ensures Linked(hash, chain + [b]) <==>
            Linked(hash, chain) && (chain == [] || b.previousHash == hash(chain[|chain| - 1]))
  {
    var c := chain + [b];
    if Linked(hash, c) {
      forall i | 1 <= i < |chain|
        ensures chain[i].previousHash == hash(chain[i - 1])
      {
        assert c[i] == chain[i] && c[i - 1] == chain[i - 1];
      }
      if chain != [] {
        assert c[|chain|] == b && c[|chain| - 1] == chain[|chain| - 1];
      }
    } else if Linked(hash, chain) && chain != [] {
      var i :| 1 <= i < |c| && c[i].previousHash != hash(c[i - 1]);
      assert i == |chain|;
    }
  }

  /** Replacing a block that has a successor by one with a different hash
      breaks the link from that successor. */
  lemma TamperDetected(hash: Block -> string, chain: seq<Block>, k: nat, forged: Block)
    requires Linked(hash, chain)
    requires k + 1 < |chain|
    requires hash(forged) != hash(chain[k])
    ensures !Linked(hash, chain[k := forged])
  {
    var c := chain[k := forged];
    assert c[k + 1].previousHash != hash(c[k]);
  }

  class Blockchain {
    /** The content hash of a block: a SHA-256 digest of the block's
        sorted-key JSON in the source, here any deterministic function. */
    const hash: Block -> string
    /** The sealed blocks, oldest first. */
    var chain: seq<Block>
    /** Votes not yet sealed into a block, in submission order. */
    var currentVotes: seq<Vote>

    /** The chain is never empty and its blocks are numbered 1, 2, 3, ... */
    ghost predicate Valid()
      reads this
    {
      chain != [] && Indexed(chain)
    }

    /** A new ledger holds only the genesis block and no pending votes. */
    constructor (hash: Block -> string, timestamp: real)
      ensures this.hash == hash
      ensures chain == [Block(1, timestamp, [], GenesisProof, GenesisPreviousHash)]
      ensures currentVotes == []
      ensures Valid() && Linked(hash, chain)
    {
      this.hash := hash;
      chain, currentVotes := [], [];
      new;
      var genesis := NewBlock(GenesisProof, timestamp, Some(GenesisPreviousHash));
    }

    /** Seals the pending votes into a new block appended to the chain and
        empties the buffer. Without a (truthy) `previousHash` the block is
        linked to the hash of the current last block, which must then exist. */
    method NewBlock(proof: int, timestamp: real, previousHash: Option<string>) returns (b: Block)
      requires Indexed(chain)
      requires chain != [] || Truthy(previousHash)
      modifies this
      ensures b.index == |old(chain)| + 1 && b.timestamp == timestamp && b.proof == proof
      ensures b.votes == old(currentVotes)
      ensures b.previousHash ==
              if Truthy(previousHash) then previousHash.value else hash(old(chain)[|old(chain)| - 1])
      ensures chain == old(chain) + [b]
      ensures currentVotes == []
      ensures Valid()
      ensures Linked(hash, chain) <==>
              Linked(hash, old(chain)) && (old(chain) == [] || b.previousHash == hash(old(chain)[|old(chain)| - 1]))
    {
      b := Block(|chain| + 1, timestamp, currentVotes, proof,
                 if Truthy(previousHash) then previousHash.value else hash(LastBlock()));
      currentVotes := [];
      LinkedAppend(hash, chain, b);
      chain := chain + [b];
    }

    /** Adds a vote to the end of the pending buffer and returns the index of
        the block that will hold it once the next block is sealed. */
    method NewVote(voterIdHash: string, candidateId: string) returns (next: int)
      requires Valid()
      modifies this`currentVotes
      ensures currentVotes == old(currentVotes) + [Vote(voterIdHash, candidateId)]
      ensures chain == old(chain)
      ensures next == |chain| + 1
    {
      currentVotes := currentVotes + [Vote(voterIdHash, candidateId)];
      next := LastBlock().index + 1;
    }

    /** The most recently sealed block; on a valid ledger its index is the
        length of the chain. */
    function LastBlock(): (b: Block)
      reads this
      requires chain != []
      ensures b == chain[|chain| - 1]
      ensures Indexed(chain) ==> b.index == |chain|
    {
      chain[|chain| - 1]
    }

    /** Walks a chain from its second block on and reports whether every
        block names the hash of its predecessor; stops at the first
        mismatch. */
    method ChainValid(c: seq<Block>) returns (ok: bool)
      requires c != []
      ensures ok <==> Linked(hash, c)
    {
      var previousBlock := c[0];
      var currentIndex := 1;
      while currentIndex < |c|
        invariant 1 <= currentIndex <= |c|
        invariant previousBlock == c[currentIndex - 1]
        invariant forall i :: 1 <= i < currentIndex ==> c[i].previousHash == hash(c[i - 1])
      {
        var block := c[currentIndex];
        if block.previousHash != hash(previousBlock) {
          return false;
        }
        previousBlock := block;
        currentIndex := currentIndex + 1;
      }
      return true;
    }
  }

  /** A vote sealed into the block after genesis, then an empty seal: what a
      caller can conclude from the contracts alone. */
  method SealScenario(hash: Block -> string, t0: real, t1: real, t2: real)
  {
    var ledger := new Blockchain(hash, t0);
    var genesis := ledger.LastBlock();
    assert genesis == Block(1, t0, [], 100, "1");
    var next := ledger.NewVote("abc", "c1");
    assert next == 2;
    var b := ledger.NewBlock(101, t1, None);
    assert b == Block(2, t1, [Vote("abc", "c1")], 101, hash(genesis));
    assert ledger.currentVotes == [];
    var empty := ledger.NewBlock(102, t2, None);
    assert empty.votes == [] && empty.index == 3 && empty.previousHash == hash(b);
    var ok := ledger.ChainValid(ledger.chain);
    assert ok;
  }
}
