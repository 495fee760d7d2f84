/**
 * The hash chain of app2.py, the earlier version: blocks have an owner but no key or signature,
 * and `compute_hash` hashes the whole `__dict__`. The constructor calls it before `hash` exists,
 * while `is_chain_valid` calls it afterwards, when `hash` is part of `__dict__`: the two hash
 * different objects.
 */
module PlainChain {
  import opened Wrappers
  import opened Json
  import opened Records

  datatype Block = Block(
    index: int,
    timestamp: string,
    artHash: string,
    owner: string,
    metadata: Dict,
    previousHash: string,
    nonce: int,
    hash: string)
  {
    /** `__dict__` while the constructor runs, before `hash` is assigned. */
    function Fields(): Dict {
      map[
        "index" := Int(index),
        "timestamp" := Str(timestamp),
        "art_hash" := Str(artHash),
        "owner" := Str(owner),
        "metadata" := Object(metadata),
        "previous_hash" := Str(previousHash),
        "nonce" := Int(nonce)]
    }

    /** `block.__dict__` once constructed, `hash` included; one record of the chain file. */
    function AsDict(): (d: Dict)
      ensures "hash" in d && d["hash"] == Str(hash)
      ensures d - {"hash"} == Fields()
    {
      Fields()["hash" := Str(hash)]
    }

    /** `compute_hash` on a constructed block: the digest of all of `__dict__`, `hash` included. */
    function ComputeHash(H: Digest): (h: string)
      ensures h == HashOf(H, Fields()["hash" := Str(hash)])
    {
      HashOf(H, AsDict())
    }
  }

  /**
   * `Block.__init__`: the attributes as given, `nonce` 0, and `hash` the digest of the
   * attributes assigned so far, which do not include `hash`.
   */
  function NewBlock(H: Digest, index: int, timestamp: string, artHash: string, owner: string,
                    metadata: Dict, previousHash: string): (b: Block)
    ensures b == Block(index, timestamp, artHash, owner, metadata, previousHash, 0, b.hash)
    ensures b.hash == HashOf(H, b.Fields())
  {
    var unhashed := Block(index, timestamp, artHash, owner, metadata, previousHash, 0, "");
    unhashed.(hash := HashOf(H, unhashed.Fields()))
  }

  /** `create_genesis_block`'s block, stamped with the time `now`. */
  function Genesis(H: Digest, now: string): (g: Block)
    ensures g.index == 0 && g.timestamp == now && g.artHash == "0" && g.owner == "Genesis"
    ensures g.metadata == map["title" := Str("Genesis Block")] && g.previousHash == "0"
    ensures g.nonce == 0 && g.hash == HashOf(H, g.Fields())
  {
    NewBlock(H, 0, now, "0", "Genesis", map["title" := Str("Genesis Block")], "0")
  }

  /** Block `i` re-hashes to its stored hash and points at the hash of block `i - 1`. */
  ghost predicate Linked(H: Digest, c: seq<Block>, i: int)
    requires 1 <= i < |c|
  {
    c[i].hash == c[i].ComputeHash(H) && c[i].previousHash == c[i - 1].hash
  }

  /** What `is_chain_valid` reports: every block after the first is linked. */
  ghost predicate ValidChain(H: Digest, c: seq<Block>) {
    forall i :: 1 <= i < |c| ==> Linked(H, c, i)
  }

  /**
   * The hash the constructor stores is never the hash `is_chain_valid` recomputes, since the
   * second one covers the extra `hash` key (for a digest without collisions).
   */
  lemma RecheckNeverMatches(H: Digest, b: Block)
    requires CollisionFree(H)
    requires b.hash == HashOf(H, b.Fields())
    ensures b.ComputeHash(H) != b.hash
  {
    assert "hash" in b.AsDict() && "hash" !in b.Fields();
    if b.ComputeHash(H) == b.hash {
      HashOfInjective(H, b.AsDict(), b.Fields());
      assert false;
    }
  }

  /**
   * Consequently a chain is reported invalid as soon as one block after the first carries
   * the hash its constructor gave it, which is the case for every block `add_block` appends.
   */
  lemma MintedChainReportsInvalid(H: Digest, c: seq<Block>, i: int)
    requires CollisionFree(H)
    requires 1 <= i < |c| && c[i].hash == HashOf(H, c[i].Fields())
    ensures !ValidChain(H, c)
  {
    RecheckNeverMatches(H, c[i]);
    assert !Linked(H, c, i);
  }

  /** `to_dict`: the records the chain file holds, one per block, in chain order. */
  function ToRecords(c: seq<Block>): (recs: seq<Dict>)
    ensures |recs| == |c| && forall i :: 0 <= i < |c| ==> recs[i] == c[i].AsDict()
  {
    seq(|c|, i requires 0 <= i < |c| => c[i].AsDict())
  }

  /** The keys `load` reads with `record[key]`, which raises `KeyError` when one is absent. */
  const RequiredKeys: set<string> :=
    {"index", "timestamp", "art_hash", "owner", "metadata", "previous_hash", "hash"}

  /**
   * The body of `load`'s loop for one record: the block with the stored attributes, `nonce`
   * defaulting to 0, and the stored `hash` kept rather than recomputed. The hash the
   * constructor computes on the way is overwritten before anyone sees it, so the block is
   * built here with the stored `nonce` and `hash` at once.
   */
  function FromDict(rec: Dict): Result<Block, LoadError> {
    var index :- RequiredInt(rec, "index");
    var timestamp :- RequiredStr(rec, "timestamp");
    var artHash :- RequiredStr(rec, "art_hash");
    var owner :- RequiredStr(rec, "owner");
    var metadata :- RequiredObject(rec, "metadata");
    var previousHash :- RequiredStr(rec, "previous_hash");
    var nonce :- IntOr(rec, "nonce", 0);
    var hash :- RequiredStr(rec, "hash");
    Ok(Block(index, timestamp, artHash, owner, metadata, previousHash, nonce, hash))
  }

  /**
   * A record `load` accepts: every required key holds the kind of JSON value the chain writes,
   * and `nonce` is either absent or an integer.
   */
  predicate Loadable(rec: Dict) {
    && RequiredKeys <= rec.Keys
    && rec["index"].Int? && rec["timestamp"].Str? && rec["art_hash"].Str?
    && rec["owner"].Str? && rec["metadata"].Object? && rec["previous_hash"].Str?
    && rec["hash"].Str?
    && ("nonce" in rec ==> rec["nonce"].Int?)
  }

  /** `load`'s loop body reads a record exactly when it is loadable. */
  lemma FromDictLoads(rec: Dict)
    ensures FromDict(rec).Ok? <==> Loadable(rec)
  {
    if Loadable(rec) {
      assert RequiredInt(rec, "index").Ok? && RequiredStr(rec, "timestamp").Ok?;
      assert RequiredStr(rec, "art_hash").Ok? && RequiredStr(rec, "owner").Ok?;
      assert RequiredObject(rec, "metadata").Ok? && RequiredStr(rec, "previous_hash").Ok?;
      assert IntOr(rec, "nonce", 0).Ok? && RequiredStr(rec, "hash").Ok?;
    }
  }

  /** A record written without `nonce` still loads, with nonce 0 and its stored hash. */
  lemma RecordWithoutNonceLoads(rec: Dict)
    requires Loadable(rec) && "nonce" !in rec
    ensures FromDict(rec).Ok?
    ensures FromDict(rec).value.nonce == 0 && FromDict(rec).value.hash == rec["hash"].s
  {
    FromDictLoads(rec);
    FromDictReads(rec);
  }

  /** A record that loads has every required key, and each attribute read from it is stored there. */
  lemma FromDictReads(rec: Dict)
    requires FromDict(rec).Ok?
    ensures RequiredKeys <= rec.Keys
    ensures var b := FromDict(rec).value;
            && rec["index"] == Int(b.index) && rec["timestamp"] == Str(b.timestamp)
            && rec["art_hash"] == Str(b.artHash) && rec["owner"] == Str(b.owner)
            && rec["metadata"] == Object(b.metadata) && rec["previous_hash"] == Str(b.previousHash)
            && ("nonce" in rec ==> rec["nonce"] == Int(b.nonce)) && ("nonce" !in rec ==> b.nonce == 0)
            && rec["hash"] == Str(b.hash)
  {
  }

  /**
   * A record is read only when every required key is present; every attribute it stores is
   * taken as stored, and an absent `nonce` becomes 0.
   */
  lemma FromDictKeepsStoredFields(rec: Dict)
    ensures FromDict(rec).Ok? ==> RequiredKeys <= rec.Keys
    ensures FromDict(rec).Ok? ==>
              var d := FromDict(rec).value.AsDict();
              forall k | k in rec && k in d :: d[k] == rec[k]
    ensures FromDict(rec).Ok? && "nonce" !in rec ==> FromDict(rec).value.nonce == 0
  {
    if FromDict(rec).Ok? {
      FromDictReads(rec);
      var b := FromDict(rec).value;
      var d := b.AsDict();
      forall k | k in rec && k in d
        ensures d[k] == rec[k]
      {
        assert k in b.Fields() || k == "hash";
      }
    }
  }

  /** Reading a block's own record gives the block back, field for field. */
  lemma FromDictAsDict(b: Block)
    ensures FromDict(b.AsDict()) == Ok(b)
  {
    var d := b.AsDict();
    assert d["index"] == Int(b.index) && d["timestamp"] == Str(b.timestamp);
    assert d["art_hash"] == Str(b.artHash) && d["owner"] == Str(b.owner);
    assert d["metadata"] == Object(b.metadata) && d["previous_hash"] == Str(b.previousHash);
    assert d["nonce"] == Int(b.nonce) && d["hash"] == Str(b.hash);
  }

  /** `load(save(c))`: reading back the records of a chain rebuilds the chain exactly. */
  lemma {:induction false} LoadSaveRoundTrip(c: seq<Block>)
    ensures FromDicts(FromDict, ToRecords(c)) == Ok(c)
    decreases |c|
  {
    if c != [] {
      var n, recs := |c| - 1, ToRecords(c);
      assert FromDicts(FromDict, recs[..n]) == Ok(c[..n]) by {
        assert recs[..n] == ToRecords(c[..n]);
        LoadSaveRoundTrip(c[..n]);
      }
      assert FromDict(recs[n]) == Ok(c[n]) by {
        FromDictAsDict(c[n]);
      }
      FromDictsStep(FromDict, recs, n);
      assert recs[..n + 1] == recs && c[..n] + [c[n]] == c;
    }
  }

  /** The chain held in memory by the application. */
  class Blockchain {
    const digest: Digest
    var chain: seq<Block>

    /** `Blockchain()`: a chain holding only the genesis block. */
    constructor (digest: Digest, now: string)
      ensures this.digest == digest && chain == [Genesis(digest, now)]
      ensures ValidChain(digest, chain)
    {
      this.digest := digest;
      chain := [];
      new;
      CreateGenesisBlock(now);
    }

    method CreateGenesisBlock(now: string)
      modifies this
      ensures chain == old(chain) + [Genesis(digest, now)]
    {
      chain := chain + [Genesis(digest, now)];
    }

    /**
     * `add_block`: append a block whose index is the chain's length and whose previous hash is
     * the last block's hash, and return it. `None` stands for the `IndexError` that
     * `self.chain[-1]` raises on an empty chain, which leaves the chain as it was.
     */
    method AddBlock(now: string, artHash: string, owner: string, metadata: Dict)
      returns (r: Option<Block>)
      modifies this
      ensures old(chain) == [] ==> r == None && chain == old(chain)
      ensures old(chain) != [] ==> r.Some? && chain == old(chain) + [r.value]
      ensures r.Some? ==> r.value.index == |old(chain)|
      ensures r.Some? ==> r.value.previousHash == old(chain)[|old(chain)| - 1].hash
      ensures r.Some? ==> r.value == Block(|old(chain)|, now, artHash, owner, metadata,
                                           r.value.previousHash, 0, r.value.hash)
      ensures r.Some? ==> r.value.hash == HashOf(digest, r.value.Fields())
    {
      if chain == [] {
        return None;
      }
      var previousBlock := chain[|chain| - 1];
      var newBlock := NewBlock(digest, |chain|, now, artHash, owner, metadata, previousBlock.hash);
      chain := chain + [newBlock];
      return Some(newBlock);
    }

    /**
     * `is_chain_valid`: scan from the second block on and stop at the first block whose hash
     * does not re-compute or whose previous hash is not its predecessor's hash.
     */
    method IsChainValid() returns (ok: bool)
      ensures ok <==> ValidChain(digest, chain)
      ensures |chain| <= 1 ==> ok
    {
      var i := 1;
      while i < |chain|
        invariant 1 <= i
        invariant forall j :: 1 <= j < i && j < |chain| ==> Linked(digest, chain, j)
      {
        var prev := chain[i - 1];
        var curr := chain[i];
        if curr.hash != curr.ComputeHash(digest) {
          assert !Linked(digest, chain, i);
          return false;
        }
        if curr.previousHash != prev.hash {
          assert !Linked(digest, chain, i);
          return false;
        }
        i := i + 1;
      }
      return true;
    }

    /** `save`: what the chain file holds afterwards; loading it rebuilds this chain. */
    function Save(): (file: Option<seq<Dict>>)
      reads this
      ensures file.Some? && FromDicts(FromDict, file.value) == Ok(chain)
    {
      LoadSaveRoundTrip(chain);
      Some(ToRecords(chain))
    }

    /**
     * `Blockchain.load`: an absent file (`None`) gives a fresh genesis-only chain; otherwise
     * the chain is exactly the file's records read in order, whatever genesis block the
     * constructor made first, or the error of the first record that cannot be read.
     */
    static method Load(digest: Digest, file: Option<seq<Dict>>, now: string)
      returns (r: Result<Blockchain, LoadError>)
      ensures r.Ok? ==> fresh(r.value) && r.value.digest == digest
      ensures file.None? ==> r.Ok? && r.value.chain == [Genesis(digest, now)]
      ensures file.Some? && FromDicts(FromDict, file.value).Ok? ==>
                r.Ok? && r.value.chain == FromDicts(FromDict, file.value).value
      ensures file.Some? && FromDicts(FromDict, file.value).Err? ==>
                r == Err(FromDicts(FromDict, file.value).error)
    {
      if file.None? {
        var blockchain := new Blockchain(digest, now);
        return Ok(blockchain);
      }
      var data := file.value;
      var blockchain := new Blockchain(digest, now);
      blockchain.chain := [];
      for i := 0 to |data|
        invariant FromDicts(FromDict, data[..i]) == Ok(blockchain.chain)
      {
        var block := FromDict(data[i]);
        FromDictsStep(FromDict, data, i);
        if block.Err? {
          FromDictsStopsAtError(FromDict, data, i + 1);
          return Err(block.error);
        }
        blockchain.chain := blockchain.chain + [block.value];
      }
      assert data[..|data|] == data;
      return Ok(blockchain);
    }
  }
}
