/** The append-only ledger (src/blockchain.rs): a vector of blocks that starts with a
    genesis block, grows only by pushing a block linked to the tail, and is checked by
    recomputing each later block's digest and comparing its link to its predecessor. */
module Blockchains {
  import opened Blocks

  const GENESIS_DATA: string := "Genesis Block"
  const GENESIS_PREVIOUS_HASH: string := "0"

  /** The two comparisons `is_valid` makes for block `i`. */
  predicate LinkedAt(digest: HashFn, blocks: seq<Block>, i: nat)
    requires 1 <= i < |blocks|
  {
    HashIntact(digest, blocks[i]) && blocks[i].previousHash == blocks[i - 1].hash
  }

  /** Every block after the first passes both comparisons; the first is read only for
      its stored digest, as block 1's predecessor. */
  predicate ChainValid(digest: HashFn, blocks: seq<Block>) {
    forall i :: 1 <= i < |blocks| ==> LinkedAt(digest, blocks, i)
  }

  /** Block `i` carries index `i`. */
  predicate IndexedByPosition(blocks: seq<Block>) {
    forall i :: 0 <= i < |blocks| ==> blocks[i].index == i
  }

  /** What construction and appending keep: a non-empty, position-indexed, valid chain. */
  predicate WellFormed(digest: HashFn, blocks: seq<Block>) {
    |blocks| > 0 && IndexedByPosition(blocks) && ChainValid(digest, blocks)
  }

  /** Validity of a chain with one more block splits into validity of the old chain and
      the new block's own two comparisons. */
  lemma AppendValid(digest: HashFn, blocks: seq<Block>, b: Block)
    requires |blocks| > 0
    ensures ChainValid(digest, blocks + [b]) <==>
      && ChainValid(digest, blocks)
      && HashIntact(digest, b)
      && b.previousHash == blocks[|blocks| - 1].hash
  {
    var longer := blocks + [b];
    forall i | 1 <= i < |blocks|
      ensures LinkedAt(digest, longer, i) == LinkedAt(digest, blocks, i)
    {
      assert longer[i] == blocks[i] && longer[i - 1] == blocks[i - 1];
    }
    assert LinkedAt(digest, longer, |blocks|) <==>
      HashIntact(digest, b) && b.previousHash == blocks[|blocks| - 1].hash;
  }

  /** Pushing a block linked to the tail, with the next index and an intact digest,
      keeps the chain well formed. */
  lemma AppendPreservesWellFormed(digest: HashFn, blocks: seq<Block>, b: Block)
    requires WellFormed(digest, blocks)
    requires b.index == blocks[|blocks| - 1].index + 1
    requires b.previousHash == blocks[|blocks| - 1].hash
    requires HashIntact(digest, b)
    ensures WellFormed(digest, blocks + [b])
  {
    AppendValid(digest, blocks, b);
    var longer := blocks + [b];
    forall i | 0 <= i < |longer|
      ensures longer[i].index == i
    {
      if i < |blocks| {
        assert longer[i] == blocks[i];
      }
    }
  }

  /** Overwriting the payload of a later block of a valid chain makes it invalid,
      provided the digest separates payloads. */
  lemma TamperedDataInvalidates(digest: HashFn, blocks: seq<Block>, i: nat, data: string)
    requires DataInjective(digest)
    requires ChainValid(digest, blocks)
    requires 1 <= i < |blocks|
    requires data != blocks[i].data
    ensures !ChainValid(digest, blocks[i := blocks[i].(data := data)])
  {
    var b := blocks[i];
    var tampered := blocks[i := b.(data := data)];
    assert LinkedAt(digest, blocks, i);
    assert digest(b.index, b.timestamp, data, b.previousHash, b.nonce) != b.hash;
    assert !LinkedAt(digest, tampered, i);
  }

  /** Validity never looks at the genesis block beyond its stored digest: any first block
      with the same digest leaves the verdict unchanged. */
  lemma GenesisNotChecked(digest: HashFn, blocks: seq<Block>, genesis: Block)
    requires |blocks| > 0
    requires genesis.hash == blocks[0].hash
    ensures ChainValid(digest, blocks[0 := genesis]) == ChainValid(digest, blocks)
  {
    var replaced := blocks[0 := genesis];
    forall i | 1 <= i < |blocks|
      ensures LinkedAt(digest, replaced, i) == LinkedAt(digest, blocks, i)
    {
      assert replaced[i] == blocks[i];
      assert replaced[i - 1].hash == blocks[i - 1].hash;
    }
  }

  /** `Blockchain`: the hash primitive it uses and the blocks it owns. */
  class Blockchain {
    const digest: HashFn
    var blocks: seq<Block>

    /** `Blockchain::new`: an empty vector, then the genesis block pushed onto it. */
    constructor (digest: HashFn, timestamp: nat, patientId: string, eventType: string)
      requires Minable(digest, 0, timestamp, GENESIS_DATA, GENESIS_PREVIOUS_HASH)
      ensures this.digest == digest
      ensures |blocks| == 1
      ensures Constructed(digest, blocks[0], 0, timestamp, GENESIS_DATA, GENESIS_PREVIOUS_HASH, patientId, eventType)
      ensures WellFormed(digest, blocks)
    {
      this.digest := digest;
      blocks := [];
      new;
      CreateGenesisBlock(timestamp, patientId, eventType);
    }

    /** `create_genesis_block`: push block 0 with the sentinel payload and predecessor. */
    method CreateGenesisBlock(timestamp: nat, patientId: string, eventType: string)
      requires Minable(digest, 0, timestamp, GENESIS_DATA, GENESIS_PREVIOUS_HASH)
      modifies this
      ensures |blocks| == |old(blocks)| + 1
      ensures blocks[..|old(blocks)|] == old(blocks)
      ensures Constructed(digest, blocks[|old(blocks)|], 0, timestamp, GENESIS_DATA, GENESIS_PREVIOUS_HASH, patientId, eventType)
      ensures old(blocks) == [] ==> WellFormed(digest, blocks)
    {
      var genesis := NewBlock(digest, 0, timestamp, GENESIS_DATA, GENESIS_PREVIOUS_HASH, patientId, eventType);
      blocks := blocks + [genesis];
    }

    /** `add_block`: push a new block after the tail, carrying the next index and the
        tail's digest. The source unwraps the tail, so the chain must not be empty. */
    method AddBlock(data: string, timestamp: nat, patientId: string, eventType: string)
      requires |blocks| > 0
      requires Minable(digest, blocks[|blocks| - 1].index + 1, timestamp, data, blocks[|blocks| - 1].hash)
      modifies this
      ensures |blocks| == |old(blocks)| + 1
      ensures blocks[..|old(blocks)|] == old(blocks)
      ensures var last := old(blocks)[|old(blocks)| - 1];
        Constructed(digest, blocks[|old(blocks)|], last.index + 1, timestamp, data, last.hash, patientId, eventType)
      ensures WellFormed(digest, old(blocks)) ==> WellFormed(digest, blocks)
    {
      var last := blocks[|blocks| - 1];
      var block := NewBlock(digest, last.index + 1, timestamp, data, last.hash, patientId, eventType);
      if WellFormed(digest, blocks) {
        AppendPreservesWellFormed(digest, blocks, block);
      }
      blocks := blocks + [block];
    }

    /** `is_valid`: walk indices 1..len, returning false at the first block whose stored
        digest is not the recomputed one or whose link does not match its predecessor. */
    method IsValid() returns (valid: bool)
      ensures valid <==> forall i :: 1 <= i < |blocks| ==>
        && blocks[i].hash == digest(blocks[i].index, blocks[i].timestamp, blocks[i].data, blocks[i].previousHash, blocks[i].nonce)
        && blocks[i].previousHash == blocks[i - 1].hash
      ensures valid == ChainValid(digest, blocks)
      ensures |blocks| <= 1 ==> valid
    {
      var i := 1;
      while i < |blocks|
        invariant 1 <= i
        invariant forall j :: 1 <= j < i && j < |blocks| ==> LinkedAt(digest, blocks, j)
      {
        var current := blocks[i];
        var previous := blocks[i - 1];
        if current.hash != digest(current.index, current.timestamp, current.data, current.previousHash, current.nonce) {
          assert !LinkedAt(digest, blocks, i);
          return false;
        }
        if current.previousHash != previous.hash {
          assert !LinkedAt(digest, blocks, i);
          return false;
        }
        i := i + 1;
      }
      forall j | 1 <= j < |blocks|
        ensures blocks[j].hash == digest(blocks[j].index, blocks[j].timestamp, blocks[j].data, blocks[j].previousHash, blocks[j].nonce)
        ensures blocks[j].previousHash == blocks[j - 1].hash
      {
        assert LinkedAt(digest, blocks, j);
      }
      return true;
    }
  }

  /** The source's end-to-end test: a genesis block and two appended blocks form a valid
      chain; overwriting the first appended block's payload makes it invalid. The digest
      here is a stand-in that meets the target at every nonce and separates payloads. */
  method ValidityScenario()
  {
    var digest: HashFn := (index: nat, timestamp: nat, data: string, prev: string, nonce: nat) => DIFFICULTY_PREFIX + data;
    forall index: nat, timestamp: nat, d1: string, d2: string, prev: string, nonce: nat
      | digest(index, timestamp, d1, prev, nonce) == digest(index, timestamp, d2, prev, nonce)
      ensures d1 == d2
    {
      assert d1 == (DIFFICULTY_PREFIX + d1)[|DIFFICULTY_PREFIX|..];
      assert d2 == (DIFFICULTY_PREFIX + d2)[|DIFFICULTY_PREFIX|..];
    }
    assert DataInjective(digest);

    assert MeetsDifficulty(digest(0, 0, GENESIS_DATA, GENESIS_PREVIOUS_HASH, 0));
    var chain := new Blockchain(digest, 0, "patient0", "Genesis");
    assert MeetsDifficulty(digest(1, 1, "First Block", chain.blocks[0].hash, 0));
    chain.AddBlock("First Block", 1, "patient1", "Admission");
    assert MeetsDifficulty(digest(2, 2, "Second Block", chain.blocks[1].hash, 0));
    chain.AddBlock("Second Block", 2, "patient1", "Discharge");
    assert |chain.blocks| == 3;

    var valid := chain.IsValid();
    assert valid;

    TamperedDataInvalidates(digest, chain.blocks, 1, "Altered First Block");
    chain.blocks := chain.blocks[1 := chain.blocks[1].(data := "Altered First Block")];
    valid := chain.IsValid();
    assert !valid;
  }
}
