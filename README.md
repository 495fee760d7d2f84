# NFT hash chain

A model of the hash chain behind the NFT simulator, in its two versions:

- `app3.py`, the later version. A block carries an owner name, an optional public key and an optional signature over the artwork's digest. `compute_hash` leaves the stored `hash` out of what it hashes.
- `app2.py`, the earlier version. A block carries only an owner name. The UI script also holds two small computations: the artwork lookup of the verify tab and the owner statistics of the statistics tab.

Modules:

- `Wrappers`: `Option` and `Result`.
- `StringOrder`: the code-point order of keys that `sort_keys=True` uses. It includes the sorted listing of a key set and its uniqueness.
- `Json`: JSON values (`null`, integers, strings and objects) and their canonical sorted-key document `Doc`. `Encode` lists every object's members in increasing key order. `Decode` inverts it. SHA-256 of the encoded text is a parameter `Digest` applied to the document. The model assumes it is collision-free only where a property needs it.
- `Records`: reading one attribute of a stored block record. `record[key]` raises `KeyError` when the key is absent; `record.get(key)` and `record.get(key, default)` do not.
- `SignedChain`: the `Block` and `Blockchain` classes of `app3.py`.
- `PlainChain`: the `Block` and `Blockchain` classes of `app2.py`. The hashing quirk is kept as written.
- `Explorer`: the lookup and the statistics of `app2.py`.
- `Wallet`: `sign_art` and `verify_signature` of `app3.py`, with the curve and base64 as parameters.

A block is a value (a datatype). `Blockchain` is a class whose `chain` field the methods reassign. The chain file is `Option<seq<Dict>>`: `None` is an absent file, and each `Dict` is one block's `__dict__` as a JSON object. The current time is a parameter `now`.

## Model

| member | source | states |
|---|---|---|
| StringOrder.LessIrreflexive | app3.py:31 | no key sorts before itself |
| StringOrder.LessTransitive | app3.py:31 | the key order is transitive |
| StringOrder.LessTotal | app3.py:31 | two different keys are always ordered one way or the other |
| StringOrder.LessAsymmetric | app3.py:31 | two keys are never ordered both ways |
| StringOrder.LeastExists | app3.py:31 | every non-empty key set has a least key |
| StringOrder.LeastUnique | app3.py:31 | the least key of a set is unique |
| StringOrder.SortedListsKeys | app3.py:31 | the sorted listing of a key set holds every key exactly once, in strictly increasing order |
| StringOrder.IncreasingListingUnique | app3.py:31 | two strictly increasing listings of the same keys are equal, so the sorted order is canonical |
| Json.EncodeSortsKeys | app3.py:31 | `Encode`, i.e. `json.dumps(sort_keys=True)`, lists an object's members in strictly increasing key order, one per key, each encoding that key's value |
| Json.DecodeMembersLookup | app3.py:31 | reading back members with distinct keys gives each key the value of its member |
| Json.IncreasingKeysDistinct | app3.py:31 | increasing keys are distinct |
| Json.DecodeEncodeObject | app3.py:31 | an object decodes back to itself once its values do |
| Json.DecodeEncode | app3.py:31 | every JSON value decodes back from its sorted encoding |
| Json.EncodeInjective | app3.py:31 | different values have different sorted encodings |
| Json.HashOfInjective | app3.py:31 | with a collision-free digest, equal hashes mean equal dictionaries |
| Records.RequiredStr | app3.py:75-77 | `record[key]` for a string: `KeyError` when absent, the stored string when it is one, `WrongType` otherwise |
| Records.RequiredInt | app3.py:74 | `record[key]` for an integer: `KeyError` when absent, the stored integer when it is one, `WrongType` otherwise |
| Records.RequiredObject | app3.py:80 | `record[key]` for an object: `KeyError` when absent, the stored object when it is one, `WrongType` otherwise |
| Records.OptionalStr | app3.py:78-79 | `record.get(key)`: `None` when absent or null, `Some` of the stored string when it is one, `WrongType` otherwise |
| Records.IntOr | app3.py:83 | `record.get(key, default)`: the default when absent, the stored integer when it is one, `WrongType` otherwise |
| Records.FromDicts | app3.py:72-85 | `load`'s loop over the file (also app2.py:66-77), for either version's record reader: on success one block per record, each the one the reader gives; on failure the error of one of the records |
| Records.FromDictsStep | app3.py:72-85 | reading one more record extends the blocks read so far by its block, or fails with its error |
| Records.FromDictsStopsAtError | app3.py:72-85 | once a prefix of the file fails to load, the whole load fails with that error |
| SignedChain.Block.AsDict | app3.py:16-25 | `__dict__` holds the stored hash under `hash` and, without it, exactly the nine other attributes |
| SignedChain.Block.ComputeHash | app3.py:27-31 | the copy of `__dict__` with `hash` popped is exactly the nine other attributes, so the hash covers those and nothing else |
| SignedChain.ComputeHashIgnoresStoredHash | app3.py:27-31 | `compute_hash` pops `hash`, so changing the stored hash does not change the recomputed one |
| SignedChain.FieldsDetermineBlock | app3.py:29-31 | the hashed attributes determine every field of the block but `hash` |
| SignedChain.NewBlock | app3.py:14-25 | the constructor stores its arguments and nonce 0, and its hash is what `compute_hash` recomputes later |
| SignedChain.Genesis | app3.py:38-39 | genesis: index 0, art hash "0", owner "Genesis", no key, no signature, title "Genesis Block", previous hash "0", nonce 0, self-consistent hash |
| SignedChain.AppendKeepsValid | app3.py:42-56 | appending a self-consistent block that points at the last hash keeps a valid chain valid |
| SignedChain.TamperDetected | app3.py:48-55 | with a collision-free digest, changing any attribute of block i ≥ 1 while keeping its hash makes the chain invalid |
| SignedChain.RelinkDetected | app3.py:52-55 | pointing block i ≥ 1 elsewhere than block i-1's hash makes the chain invalid, even with its hash recomputed |
| SignedChain.FromDictReads | app3.py:72-84 | a record that loads has every required key, and every attribute read is the one stored (or None, None, 0 when the optional key is absent) |
| SignedChain.FromDictLoads | app3.py:72-84 | `FromDict`, the body of `load`'s loop, reads a record exactly when every required key holds the kind of value the chain writes and each optional key is absent or of its kind |
| SignedChain.RecordWithoutOptionalKeysLoads | app3.py:78-84 | a record without `owner_pubkey`, `signature` and `nonce` still loads, with None, None and 0, and its stored hash |
| SignedChain.FromDictKeepsStoredFields | app3.py:72-84 | a record loads only when all required keys are present; every stored attribute, `hash` and `nonce` included, is kept verbatim; an absent key, signature or nonce becomes None, None or 0 |
| SignedChain.FromDictAsDict | app3.py:72-84 | loading a block's own record gives back that block |
| SignedChain.LoadSaveRoundTrip | app3.py:58-85 | loading the records `to_dict` produces rebuilds the chain field for field |
| SignedChain.Blockchain.constructor | app3.py:34-40 | a fresh chain holds exactly the genesis block, and it is valid |
| SignedChain.Blockchain.CreateGenesisBlock | app3.py:38-40 | appends the genesis block and changes nothing else |
| SignedChain.Blockchain.AddBlock | app3.py:42-46 | on a non-empty chain: appends one block with index = old length and previous hash = old last hash, stores its arguments and a self-consistent hash, returns it, keeps earlier blocks, and keeps a valid chain valid; on an empty chain it fails and changes nothing |
| SignedChain.Blockchain.IsChainValid | app3.py:48-56 | true exactly when every block i ≥ 1 re-hashes to its stored hash and points at block i-1's hash; true for chains of length ≤ 1; changes nothing |
| SignedChain.Blockchain.Save | app3.py:61-63 | the file written holds records that load back into this chain |
| SignedChain.Blockchain.Load | app3.py:65-87 | an absent file gives a fresh genesis-only chain; otherwise the chain is the file's records read in order, whatever genesis the constructor made; an unreadable record is an error |
| PlainChain.Block.AsDict | app2.py:13-21 | `__dict__` holds the stored hash under `hash` and, without it, exactly the seven other attributes |
| PlainChain.Block.ComputeHash | app2.py:23-25 | the hash covers all of `__dict__`: the seven attributes plus the stored `hash` |
| PlainChain.NewBlock | app2.py:13-25 | the constructor stores its arguments and nonce 0, and hashes the sorted-key encoding of those seven attributes, taken before `hash` exists |
| PlainChain.Genesis | app2.py:32-33 | genesis: index 0, art hash "0", owner "Genesis", title "Genesis Block", previous hash "0", nonce 0 |
| PlainChain.RecheckNeverMatches | app2.py:21-25 | with a collision-free digest, the hash `compute_hash` recomputes on a constructed block (`hash` included) is never the one stored |
| PlainChain.MintedChainReportsInvalid | app2.py:42-50 | with a collision-free digest, any chain holding a constructor-hashed block after the first is reported invalid |
| PlainChain.FromDictReads | app2.py:66-76 | a record that loads has every required key, and every attribute read is the one stored (or 0 for an absent nonce) |
| PlainChain.FromDictLoads | app2.py:66-76 | `FromDict`, the body of `load`'s loop, reads a record exactly when every required key holds the kind of value the chain writes and `nonce` is absent or an integer |
| PlainChain.RecordWithoutNonceLoads | app2.py:75-76 | a record without `nonce` still loads, with nonce 0 and its stored hash |
| PlainChain.FromDictKeepsStoredFields | app2.py:66-76 | a record loads only when all required keys are present; every stored attribute is kept verbatim; an absent nonce becomes 0 |
| PlainChain.FromDictAsDict | app2.py:66-76 | loading a block's own record gives back that block |
| PlainChain.LoadSaveRoundTrip | app2.py:52-77 | loading the records `to_dict` produces rebuilds the chain field for field |
| PlainChain.Blockchain.constructor | app2.py:28-34 | a fresh chain holds exactly the genesis block |
| PlainChain.Blockchain.CreateGenesisBlock | app2.py:32-34 | appends the genesis block and changes nothing else |
| PlainChain.Blockchain.AddBlock | app2.py:36-40 | on a non-empty chain: appends one block with index = old length and previous hash = old last hash, stores its arguments, returns it and keeps earlier blocks; on an empty chain it fails and changes nothing |
| PlainChain.Blockchain.IsChainValid | app2.py:42-50 | true exactly when every block i ≥ 1 re-hashes (over `__dict__` with `hash`) to its stored hash and points at block i-1's hash; true for chains of length ≤ 1 |
| PlainChain.Blockchain.Save | app2.py:55-57 | the file written holds records that load back into this chain |
| PlainChain.Blockchain.Load | app2.py:59-79 | an absent file gives a fresh genesis-only chain; otherwise the file's records in order, or the error of an unreadable record |
| Explorer.Lookup | app2.py:129 | a block is in the result exactly when it is on the chain with the queried art hash; the result is empty exactly when no block matches |
| Explorer.LookupConcat | app2.py:129 | the lookup keeps chain order: the matches of a concatenation are the matches of each part in turn |
| Explorer.LookupAfterMint | app2.py:129 | after minting a block, looking up its artwork gives the earlier matches followed by that block |
| Explorer.FirstIndexExtend | app2.py:173-175 | appending to a list does not move the first occurrence of an element already in it |
| Explorer.TotalUpdate | app2.py:175 | raising one row's count changes the total by the same amount |
| Explorer.RowOf | app2.py:175 | `owner_counts.get(owner)`: the row of that owner, or "none" exactly when the owner has no row |
| Explorer.BumpOwners | app2.py:175 | one dictionary update keeps the keys, or adds the new owner as the last key |
| Explorer.BumpKeepsDistinct | app2.py:175 | a dictionary update keeps one row per owner |
| Explorer.BumpKeepsCounts | app2.py:175 | after an update, each owner's count is the number of times that owner has been seen |
| Explorer.NewOwnerLast | app2.py:175 | an owner seen for the first time first occurs at the end of the owners seen |
| Explorer.BumpKeepsOrder | app2.py:175 | after an update, the keys stay in the order their owners were first seen |
| Explorer.BumpAddsOne | app2.py:175 | each turn of the loop raises the total count by one |
| Explorer.BumpKeepsTallies | app2.py:173-175 | `Bump`, one turn of the loop (`owner_counts[owner] = owner_counts.get(owner, 0) + 1`), keeps all of the above |
| Explorer.OwnerCounts | app2.py:173-175 | one row per owner of `chain[1:]`, in first-mint order, each counting that owner's blocks; the counts sum to len(chain) - 1 |
| Explorer.InsertSorts | app2.py:176 | inserting into a by-count list keeps it ordered, with one more row |
| Explorer.InsertPermutes | app2.py:176 | inserting adds exactly the one row |
| Explorer.InsertBelow | app2.py:176 | inserting a row into rows all at most m keeps all rows at most m |
| Explorer.InsertKeepsTies | app2.py:176 | inserting a row puts it after every row with the same count |
| Explorer.TiesBehind | app2.py:176 | the step where the inserted row goes behind the first row keeps ties in order |
| Explorer.TiesInFront | app2.py:176 | when the row goes in front, no remaining row shares its count |
| Explorer.WithCountCons | app2.py:176 | the rows with count n of a list with one more row in front |
| Explorer.NoneWithCount | app2.py:176 | a list where no row has count n has no rows with count n |
| Explorer.WithCountAppend | app2.py:176 | the rows with count n of an extended list are those of the original, then the new row if it has count n |
| Explorer.LeaderboardSorts | app2.py:176 | `Leaderboard`, the `sorted(..., reverse=True)` of the items, is ordered by non-increasing count and is a permutation of the counts |
| Explorer.LeaderboardStable | app2.py:176 | Python's stable reverse sort: rows with the same count keep their dictionary order |
| Explorer.DistinctCount | app2.py:170 | with one row per owner, the number of owners equals the number of rows |
| Explorer.TotalInsert | app2.py:176 | inserting a row adds its count to the total |
| Explorer.TotalFront | app2.py:176 | the total is the first count plus the total of the rest |
| Explorer.LeaderboardTotal | app2.py:176 | sorting does not change the total |
| Explorer.DistinctAtMostOnce | app2.py:176 | a dictionary's items hold each row at most once |
| Explorer.PermutationKeepsDistinct | app2.py:176 | reordering the items keeps one row per owner |
| Explorer.SameRowsSameOwners | app2.py:176 | lists with the same rows name the same owners |
| Explorer.LeaderboardRows | app2.py:176 | the leaderboard holds the same rows as the counts, one per owner, ordered by count, with the same total |
| Explorer.UniqueOwners | app2.py:170 | `set(block.owner for block in chain[1:])` is the set of owners of `chain[1:]` |
| Explorer.LeaderboardOfCounts | app2.py:170-176 | the leaderboard of the counts of the owners seen has one row per distinct owner, each with its count, by count, summing to the number seen |
| Explorer.Statistics | app2.py:166-176 | total NFTs = len(chain) - 1; unique owners = number of leaderboard rows = owners of `chain[1:]`; every row counts its owner's blocks; the leaderboard is non-increasing and sums to the number of minted blocks |
| Wallet.SignArt | app3.py:106-108 | the returned text decodes to the signature bytes whenever base64 round-trips them |
| Wallet.UndecodableRejected | app3.py:110-114 | `VerifySignature` rejects a signature text base64 cannot decode instead of raising |
| Wallet.ForgeryRejected | app3.py:110-114 | bytes the curve rejects are rejected |
| Wallet.SignThenVerify | app3.py:106-114 | signing then verifying with the matching key succeeds, given a base64 round-trip and a curve that accepts its own signatures |
| Wallet.VerdictFollowsBytes | app3.py:110-114 | the verdict depends only on the decoded signature bytes |

## Left out

- The Streamlit UI, its forms, tabs, HTML tables and plotly charts, and the rendering of the lookup matches and statistics. These are presentation only.
- File I/O. `open`, `os.path.exists`, `json.dump` with `indent=4` and `json.load` are replaced by the value `Option<seq<Dict>>`.
- The exact JSON text, string escaping and UTF-8 encoding. The digest is applied to the canonical sorted-key document `Doc`, not to its text. JSON floats, booleans and arrays are not modelled as metadata values.
- SHA-256 internals. Both `compute_hash` and `get_image_hash` use SHA-256; the art hash is an input string.
- `get_image_hash`, `create_thumbnail` and PIL. These are foreign libraries; the thumbnail is only an opaque metadata string.
- `generate_wallet` and the ECDSA/secp256k1 arithmetic. The `Wallet` module takes signing, verifying and base64 as parameters; `verify_signature` is modelled with every exception it swallows as false.
- `datetime.now()`. The timestamp is the parameter `now`.
- The module-level global `blockchain`. Each chain is an explicit `Blockchain` object.
- Aliasing of blocks and of their `metadata` dictionaries. Blocks are values, so a later mutation of a block or of a metadata dictionary shared with a caller is not modelled.
- SignedChain.FromDict: the record is read into typed fields, so a stored attribute of the wrong JSON type (a string index, say) is a `WrongType` error. Python would store it unchecked. The constructor's hash is computed and then overwritten, so the model builds the block with the stored nonce and hash at once.
- PlainChain.FromDict: same deviation as `SignedChain.FromDict`.
- SignedChain.Blockchain.AddBlock and PlainChain.Blockchain.AddBlock: the `IndexError` of `self.chain[-1]` on an empty chain, which loading a file holding the empty list `[]` produces, is the result `None`.
- Explorer.Statistics: `total_nfts` is `len(chain) - 1` as written, so it is -1 for an empty chain. It does not state the tie order of the leaderboard; `Explorer.LeaderboardStable` states it for the sort.
- Wallet.SignArt: only states that the text carries the signature bytes. The curve's own guarantees (unforgeability) are outside the model.

## Findings

| source | as written | input that shows it | evidently intended | confidence | as-written member | corrected member |
|---|---|---|---|---|---|---|
| app2.py:21-25 | `compute_hash` hashes all of `__dict__`. The constructor calls it before `hash` is set; `is_chain_valid` calls it again at app2.py:46 once `hash` is in `__dict__`, so the two encodings differ | a chain of genesis plus any block made by `add_block`: block 1's stored hash covers 7 keys, the recomputed one 8, so `is_chain_valid` returns False on an untouched chain | hash the attributes without `hash`, as `app3.py:27-31` does, so that an untouched chain is valid | high, not executed | PlainChain.MintedChainReportsInvalid | SignedChain.AppendKeepsValid |
