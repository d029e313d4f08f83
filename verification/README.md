# Verified model of the blossom-rs blob server

blossom-rs is a content-addressed blob server for Nostr. A client uploads bytes under a signed
authorization event and reads them back by their SHA-256. The server may keep the bytes raw, compressed,
or as an xdelta3 delta against an older version of the same Git LFS file; it accounts for what each
public key owns, limits how often an authorization event can be used, and speaks HTTP as well as a
framed protocol over iroh streams. This project models those parts in Dafny and proves what holds in
every run of them.

## The main results

- **Content fidelity** (`Fidelity`, on `LfsStore` and `LfsFaithful`). The server is compared with a plain
  server that keeps every blob in full. Along every safe run the two give the same answers to every request,
  and every read returns the bytes first uploaded under that hash, through compression, delta chains,
  rebasing on delete, re-uploads and owner bookkeeping.
- **Where fidelity stops** (`LfsExact`, `LfsOverwrite`, `LfsDeepChain`). In any store that means what was
  uploaded, a recorded blob reads back right if and only if its delta chain is at most ten long or the
  over-long walk happens to come out right, which is spelled out for the bytes that walk meets. An upload
  reads back if and only if a test on the store before it says so, whatever the depth of its base. An upload
  that overwrites a recorded blob in place, as mirror and NIP-96 uploads do, reads back, and leaves the
  reads of other blobs as they were, if and only if such tests hold. docs/BUD-20.md (lines 183-184) promises
  that an upload beyond depth ten is stored in full; the upload code has no such test. A run of twelve
  uploads, with a one-byte codec defined in this project in place of zstd and xdelta3, ends with a blob that
  reads back as other bytes, by the exact condition. The model follows the code.
- **At most one use of an authorization event** (`ExactlyOnce`, `IrohOnce`, `ThirdUse`). Under a clock that
  does not step back, an event is accepted again within 30 seconds of its claim check only after as many
  other acceptances as one of the two cache limits. On the iroh server this counts from every acceptance of
  the event, on the HTTP server from one with no older copy of its id queued, such as the first; a run on
  which a third use comes too soon after the second shows why. At 30 seconds exactly an event can be
  accepted twice in a row. Which requests are accepted is stated outright: those whose event passes its
  claims, with every limit written out, and is not held.
- **Two replay caches, one ledger** (`ReplayLedger`, `HttpReplay`, `ReplayOrder`, `IrohReplayCache`,
  `ReplayEquivalence`, `ReplayDivergence`). The iroh cache is the ledger on all runs. The HTTP cache agrees
  with it, in what it holds and in what it would answer to any attempt, if and only if every attempt finds
  its queue in order: first and last copies of the queued ids put the same expired ids in front, and the
  first live id is the oldest if one has to go. For any limits with a share of at least one and room for
  three more than it, a run on which the queue is out of order ends with the two giving different answers.
- **Ownership and quota** (`BlobDatabase`, `Server`, `Ownership`, `Answers`). In every reachable state the
  recorded usage of each key is the sum of the sizes it owns; no upload takes a key over its quota; a
  member's delete changes no other key's records or usage and removes no blob another key owns. Each answer
  to an upload or delete is given exactly under its condition, and says exactly what has changed.
- **Merkle inclusion proofs** (`Merkle`). Every published proof verifies exactly when its leaf hash decodes,
  and, as far as the hashes actually computed do not collide, a proof of the right length verifies if and
  only if it is the tree's own. The order in which nodes are hashed is fixed by how roots combine.
- **Rate limiting** (`TokenBucket`, `RateBound`). Whatever the clock and the rate, over the lifetime of a
  bucket the requests allowed and the tokens left come to no more than a full bucket and what the time is
  worth. Of a key's requests at one moment exactly as many are allowed as its tokens and the time since its
  last refill come to. Dropping a bucket shows in the answers if and only if the refill it was due would not
  have filled it. On runs whose clock does not step back and whose sweeps drop only buckets due to be full, every window
  allows a key fewer than a full bucket plus one plus what the window is worth.
- **Codecs and framing** (`Base64Url`, `CivilDate`, `PktLine`, `Framing`). Round trips on all inputs, exact
  failure conditions, timestamps that sort as text up to a year if and only if it is before 10000, and
  downloads that depend on the bytes sent and not on the pieces they arrive in.

State that the source updates in place is held in classes (`IrohCache`, `HttpCache`, `MemoryBackend`,
`LfsVersions`, `MemoryDatabase`, `BlobServer`, `RateLimiter`, `RecvStream`) whose methods carry the loops
of the source and are proved equal to functions of the old state; the theorems are about those functions.

Some things are parameters. Compression, xdelta3 and JSON are function values with stated laws (`Lawful`).
SHA-256 is any function; where soundness needs it, the absence of a collision is assumed only for the
pairs that the two computations hash (`NoCollision`). Clock readings are arguments, two of them where the
source reads the clock twice. UTF-8 validation and Unicode trimming are function values.

`dafny verify dfyconfig.toml` checks the whole project.

## Model

| member | source | states |
|---|---|---|
| Merkle.HexRoundTrip | src/integrity.rs:569-572 | decoding the hexadecimal text of any byte string gives that string back |
| Merkle.HexDigits | src/integrity.rs:569-572 | each byte is printed as two lower-case digits, the high one first |
| Merkle.HexDecodes | src/integrity.rs:569-572 | text decodes if and only if it is an even number of hexadecimal digits of either case, to half as many bytes |
| Merkle.HexValueIs | src/integrity.rs:569-572 | the characters of each value are its digit, and for ten and above both cases of its letter |
| Merkle.RootSplits | src/integrity.rs:574-594 | the root over 2^k leaves and at most as many more is the hash of the two roots in that order, the second hashed with itself once for each level it is short of |
| Merkle.FoldSteps | src/integrity.rs:395-412 | a step to the right hashes the node before the sibling, a step to the left the sibling before the node |
| Merkle.ZerosStandIn | src/integrity.rs:569-578 | a leaf hash that does not decode counts as 32 zero bytes, and so does the root of no leaves |
| Merkle.Completeness | src/integrity.rs:596-628 | for every leaf of every tree, folding the leaf along the proof built for it gives the root |
| Merkle.HeightIsLeast | src/integrity.rs:603-626 | the length of a proof is the least h with at most 2^h leaves |
| Merkle.ProofShape | src/integrity.rs:603-627 | the direction flags of a proof are the binary digits of the leaf's index |
| Merkle.Soundness | src/integrity.rs:395-412 | absent a collision among the pairs hashed, a proof of the tree's height leads to the root if and only if its leaf and siblings are the tree's own at the position its flags name |
| Merkle.RootBinds | src/integrity.rs:574-594 | absent a collision among the pairs hashed, trees of equal size and equal root have the same leaves |
| Merkle.NextLevel | src/integrity.rs:583-591 | the pairing loop computes the parent level: each parent hashes its left child and then its right one, the last odd one with itself |
| Merkle.ComputeMerkleRoot | src/integrity.rs:574-594 | the level loop computes the root of the recursive tree, zeros for no leaves |
| Merkle.MerkleProof | src/integrity.rs:596-628 | the loop that follows one index up the levels computes the recursive proof |
| Merkle.VerifyMerkleProof | src/integrity.rs:395-412 | accepts exactly when leaf and siblings decode to digests and the fold's hexadecimal text is the expected root |
| Merkle.ProofRoundTrip | src/integrity.rs:369-372 | a proof written in hexadecimal decodes to itself |
| Merkle.PublishedProofVerifies | src/integrity.rs:357-391 | the published proof of a leaf verifies against the published root if and only if the leaf's own hash decodes |
| Merkle.VerifierSoundness | src/integrity.rs:389-412 | a textual proof of the tree's height that verifies shows, absent a collision, the leaf at the position its flags name |
| Merkle.Position | src/integrity.rs:358 | the index of the first leaf with the path, or the number of leaves if there is none |
| Merkle.ProofFor | src/integrity.rs:357-375 | no proof exactly when no leaf has the path; otherwise the proof of the first such leaf with its hash, index and root |
| ReplayLedger.CommitKeeps | src/transport/iroh_transport.rs:587-614 | a commit keeps the ledger free of duplicates and within the total and the per-principal limit |
| ReplayLedger.PruneExact | src/transport/iroh_transport.rs:616-627 | with entries in order of expiry, stopping at the first live entry removes exactly the expired ones |
| ReplayLedger.CommitSorted | src/transport/iroh_transport.rs:587-614 | commits with expiries that do not decrease keep the entries in order of expiry |
| IrohReplayCache.DecrementExact | src/transport/iroh_transport.rs:650-660 | decrementing a principal's count, and dropping it at zero, keeps the counts equal to the number of its live entries |
| IrohReplayCache.IrohCache.constructor | src/transport/iroh_transport.rs:577-585 | a new cache is valid and stands for the empty ledger |
| IrohReplayCache.IrohCache.RemoveEntry | src/transport/iroh_transport.rs:650-660 | removes an id that has left the queue from entries and counts, and so from the ledger |
| IrohReplayCache.IrohCache.EvictOldest | src/transport/iroh_transport.rs:629-635 | drops the oldest id and reports whether there was one |
| IrohReplayCache.IrohCache.EvictOldestFor | src/transport/iroh_transport.rs:637-648 | drops the oldest id of one principal and reports whether there was one |
| IrohReplayCache.IrohCache.PruneExpired | src/transport/iroh_transport.rs:616-627 | drops ids from the front while they are expired |
| IrohReplayCache.IrohCache.MakeRoomFor | src/transport/iroh_transport.rs:593-597 | evicts a principal's oldest ids until its share has room |
| IrohReplayCache.IrohCache.MakeRoom | src/transport/iroh_transport.rs:598-602 | evicts the oldest ids until the cache has room |
| IrohReplayCache.IrohCache.Insert | src/transport/iroh_transport.rs:604-612 | appends the id to queue and entries and counts it for its principal |
| IrohReplayCache.IrohCache.Commit | src/transport/iroh_transport.rs:587-614 | the cache refines the ledger's commit, answer and new state, and stays valid |
| HttpReplay.RemoveRefines | src/server/mod.rs:493-503 | removing an id keeps the representation invariant and drops the id from the ledger it stands for |
| HttpReplay.PruneInv | src/server/mod.rs:505-518 | pruning keeps the invariant and only removes |
| HttpReplay.EvictForRefines | src/server/mod.rs:532-546 | share eviction is the ledger's, although the evicted ids stay queued |
| HttpReplay.EvictOldestInv | src/server/mod.rs:548-553 | capacity eviction keeps the invariant, only removes, and makes room |
| HttpReplay.InsertRefines | src/server/mod.rs:555-567 | inserting a new id keeps the invariant and appends to the ledger |
| HttpReplay.CheckAndInsertKeeps | src/server/mod.rs:520-568 | every step keeps the invariant and both limits, from any state that meets them |
| HttpReplay.QueueGrowsBy | src/server/mod.rs:520-568 | a step queues no id but the one it accepts |
| HttpReplay.CheckAndInsertRefines | src/server/mod.rs:520-568 | unless the accepted id is still queued from before, a step gives the ledger's answer and new state |
| HttpReplayCache.HttpCache.constructor | src/server/mod.rs:483-491 | a new cache is empty and has the given limits |
| HttpReplayCache.HttpCache.RemoveEvent | src/server/mod.rs:493-503 | computes the removal, filtering the principal's list and dropping it when empty |
| HttpReplayCache.HttpCache.PruneExpired | src/server/mod.rs:505-518 | the loop computes the pruned state |
| HttpReplayCache.HttpCache.CheckAndInsert | src/server/mod.rs:520-568 | the two eviction loops and the insertion compute the step's answer and new state |
| ReplayEquivalence.HttpRunInvariant | src/server/mod.rs:474-568 | in every state of every run the HTTP cache meets its invariant and both limits, whatever the clock does |
| ReplayOrder.HttpPrunes | src/server/mod.rs:505-518 | pruning the HTTP cache drops the expired ids that come first in the order of first copies |
| ReplayOrder.LedgerPrunes | src/transport/iroh_transport.rs:616-627 | pruning the ledger drops the expired ids that come first in the order of last copies |
| ReplayOrder.PruneIff | src/server/mod.rs:505-518 | the HTTP cache prunes as the ledger does if and only if both orders put the same expired ids in front |
| ReplayOrder.EvictIff | src/server/mod.rs:548-553 | it evicts for capacity as the ledger does if and only if the first live id of its queue is the oldest whenever one has to go |
| ReplayEquivalence.AlikeIff | src/server/mod.rs:527-530 | the two caches would answer every attempt at a time alike if and only if pruning at that time is in order |
| ReplayEquivalence.StepIff | src/server/mod.rs:520-568 | they answer alike and hold the same after an attempt if and only if it finds the queue in order |
| ReplayEquivalence.MayMeetAgain | src/server/mod.rs:527-546 | caches that prune differently hold the same again when share eviction drops the one id they differ in |
| ReplayEquivalence.CachesAgreeIff | src/server/mod.rs:520-568 | on every run the HTTP and iroh caches agree throughout if and only if every attempt finds the HTTP queue in order |
| ReplayEquivalence.CachesAgree | src/server/mod.rs:520-568 | they agree on every run in which no id is accepted while an older copy of it is still queued |
| ReplayEquivalence.AcceptedOnceIsNeverRequeued | src/server/mod.rs:520-568 | a run in which no id is accepted twice meets that condition |
| ReplayEquivalence.IrohSorted | src/transport/iroh_transport.rs:587-614 | under a clock that does not step back the iroh cache is always in order of expiry |
| ReplayEquivalence.IrohExact | src/transport/iroh_transport.rs:587-627 | under such a clock an attempt is refused exactly when its id is held and unexpired, and nothing expired stays behind |
| ReplayDivergence.CachesDiverge | src/server/mod.rs:505-546 | for any limits with a share of at least one and room for three more, a run at the end of which the HTTP cache refuses an expired event, kept by the older copy of another id, that the iroh cache accepts |
| ReplayDivergence.CachesMeetAgain | src/server/mod.rs:505-546 | with a share of one, a run on which the two caches would answer differently and then hold the same again |
| ExactlyOnce.ClaimsWindow | src/auth/mod.rs:162-190 | the times at which one event passes the claim checks lie within 90 seconds |
| ExactlyOnce.ClaimsIff | src/auth/mod.rs:147-236 | for 64-bit times an event passes the claim check if and only if it is bound, at most 30 seconds from the future, at most 60 seconds old, and either of kind 27235 or of kind 24242 with one expiration that is not past and at most 120 seconds after the event |
| ExactlyOnce.ClaimsRefused | src/auth/mod.rs:147-236 | each refusal is given exactly when its test is the first to fail |
| ExactlyOnce.AcceptedIff | src/server/mod.rs:571-611 | in every run a request is accepted if and only if its event passes those claims and is not held after pruning |
| IrohOnce.AcceptedIff | src/transport/iroh_transport.rs:448-678 | on the iroh server the same holds, and the event must be of kind 24242 |
| ExactlyOnce.StepTracks | src/server/mod.rs:571-611 | while an accepted event is unexpired a request cannot use it again, and it stays held until a limit's worth of other requests has been accepted |
| ExactlyOnce.RunInvariant | src/server/mod.rs:571-611 | along every run the cache meets its invariant and limits and queues only ids accepted before |
| ExactlyOnce.FirstIsUnqueued | src/server/mod.rs:571-592 | at the first acceptance of an event no copy of its id is queued |
| ExactlyOnce.UnqueuedAcceptance | src/server/mod.rs:571-592 | an acceptance with no copy of the id queued leaves it held, queued once, with nothing behind it |
| ExactlyOnce.AcceptedOnce | src/server/mod.rs:571-611 | under a clock that does not step back, after an acceptance with no older copy of its id queued, an event is accepted again, marked within 30 seconds of its claim check, only after its key's share or the whole capacity of other acceptances |
| ThirdUse.AcceptedTooSoon | src/server/mod.rs:505-568 | with a share of one and any capacity of at least four, a run on which an event, accepted a second time while its first copy is queued, is accepted a third time after fewer other acceptances than the capacity and none of its key |
| IrohOnce.StepTracks | src/transport/iroh_transport.rs:587-614 | on the iroh server a held, unexpired event cannot be used again, and stays held until a limit's worth of other requests has been accepted |
| IrohOnce.Acceptance | src/transport/iroh_transport.rs:663-678 | every acceptance there leaves the event the youngest held, whatever happened to it before |
| IrohOnce.AcceptedOnce | src/transport/iroh_transport.rs:448-678 | there the bound on reuse counts from every acceptance |
| ExactlyOnce.GapIsTight | src/server/mod.rs:571-611 | marked exactly 30 seconds after its claim check, an event is accepted twice in a row, under any limits |
| LfsFaithful.WalkRebuilds | src/lfs/mod.rs:79-128 | walking k deltas back and applying them forward rebuilds the content, for every chain no longer than k |
| LfsFaithful.ReconstructRebuilds | src/lfs/mod.rs:71-131 | reconstruction of any blob with a chain of at most ten deltas returns its content |
| LfsFaithful.ReadsAreFaithful | src/server/mod.rs:1181-1251 | in a faithful store every GET returns the content or nothing, and every HEAD its original size |
| LfsFaithful.PutKeepsMeaning | src/server/mod.rs:1012-1135 | whatever the depth of its base, a sound upload whose base reads back adds its content and changes no other |
| LfsFaithful.PutRefines | src/server/mod.rs:1012-1135 | a safe upload, new or repeated, also leaves every chain within reach of a read |
| LfsFaithful.RebaseAllKeeps | src/server/mod.rs:1337-1377 | rebasing a list of deltas changes no content, lengthens no chain and leaves each of them in full |
| LfsFaithful.EraseKeeps | src/server/mod.rs:1379-1390 | erasing a blob that no delta rests on removes that content only |
| LfsFaithful.RemoveRefines | src/server/mod.rs:1331-1390 | a delete with its rebase removes exactly the deleted content, leaves nothing resting on it and lengthens no chain |
| LfsExact.DeepRebuild | src/lfs/mod.rs:79-130 | reconstruction over more deltas than it walks starts from the stored bytes of a delta |
| LfsExact.RightByChance | src/lfs/mod.rs:79-130 | such a walk ends right if and only if it starts right or one of its steps turns wrong bytes into the right ones |
| LfsExact.ReadableIffShallow | src/server/mod.rs:1181-1214 | a recorded blob reads back right if and only if its chain is at most ten long or the over-long walk is lucky |
| LfsExact.UploadReadsBackIff | src/server/mod.rs:1012-1135 | an upload reads back if and only if a test on the request and the store before it holds, whatever the depth of its base |
| LfsExact.DeltaUploadIff | src/server/mod.rs:1012-1135 | a sound new delta on a base that reads back does so itself if and only if the base is at most nine deep or the walk is lucky |
| LfsExact.EraseReadsIff | src/server/nip96.rs:329-416 | deleting bytes without rebasing leaves another read as it was if and only if that read does not take those bytes or already fell back to the stored form |
| LfsStore.FormIff | src/server/mod.rs:1012-1077 | an upload is kept raw exactly when it is no LFS blob or a manifest, and as a delta exactly when its base is recorded and stored and the delta is below four fifths of the data and compresses |
| LfsStore.PutRecords | src/server/mod.rs:1102-1135 | an upload with repository and path appends one record of its hash, form and size, numbered one above the latest of its path |
| LfsStore.PutStores | src/server/mod.rs:1079-1100 | bytes and size are stored exactly when nothing is stored under the hash |
| LfsStore.LatestIs | src/lfs/mod.rs:242-253 | the latest record of a path is the last of those with the greatest number, and there is none exactly when the path has none |
| LfsOverwrite.ReadAtDelta | src/lfs/mod.rs:79-130 | reconstruction applies each delta to what the hops left make of its base, errors included |
| LfsOverwrite.NotOnOwnChain | src/lfs/mod.rs:79-95 | a chain that ends at a full blob never comes back to the blob it started from |
| LfsOverwrite.OverwriteReadsIff | src/storage/memory.rs:32-37 | a blob not on its own chain reads back the bytes written over it if and only if its record is absent or raw, or compressed and decompression leaves them alone, or a delta and decoding them against the base fails or gives them back |
| LfsOverwrite.OverwriteReadsOthersIff | src/storage/memory.rs:32-37 | another blob then reads as before if and only if its walk does not come to the one overwritten, or the deltas above make the same of what that is now and was before |
| LfsDeepChain.FirstEleven | src/server/mod.rs:1012-1135 | the first eleven uploads of the chain keep the store faithful |
| LfsDeepChain.TwelfthReadsWrong | src/lfs/mod.rs:79-130 | after the twelfth the newest blob is beyond reach with no luck, so GET answers bytes that were never uploaded under its hash |
| BlobDatabase.RecordUploadRefuses | src/db/memory.rs:36-64 | an upload is recorded if and only if its key already owns the blob or what it owns plus the new size fits both 64 bits and its quota |
| BlobDatabase.RecordFailsIff | src/db/memory.rs:36-64 | each error is given exactly when its sum is over, with the sums it names, and then no reference and no upload is added |
| BlobDatabase.RecordAdds | src/db/memory.rs:57-61 | a recorded upload adds exactly its own reference, and its upload record if there was none; an older record stays |
| BlobDatabase.RecordCharges | src/db/memory.rs:57-61 | it adds exactly its size to what its key owns and is charged |
| BlobDatabase.RecordedTwice | src/db/memory.rs:36-40 | recording a reference that is there changes nothing |
| BlobDatabase.RecordAccounts | src/db/memory.rs:42-61 | a new key gets an account as a member without quota, an old one keeps role and quota, and no other key changes |
| BlobDatabase.CheckQuotaIff | src/db/memory.rs:155-175 | bytes are turned away exactly when the key has a quota and would own more than it or than 64 bits hold |
| BlobDatabase.RecordUploadKeeps | src/db/memory.rs:36-64 | recording keeps each key's used bytes equal to the sum of what it owns |
| BlobDatabase.RecordUploadAnchors | src/db/memory.rs:36-64 | recording keeps an owner for every upload and an upload for every owner |
| BlobDatabase.DeleteUploadOwnerKeeps | src/db/memory.rs:117-126 | dropping one owner keeps the balance, and the subtraction never saturates |
| BlobDatabase.DeleteOwnerRemoves | src/db/memory.rs:117-126 | removing a reference removes that one and no other |
| BlobDatabase.OwnersLeft | src/db/memory.rs:117-126 | it leaves one owner fewer |
| BlobDatabase.DeleteOwnerCredits | src/db/memory.rs:117-126 | it takes exactly the size of the reference off what its key owns and is charged |
| BlobDatabase.DeleteOwnerOfNothing | src/db/memory.rs:117-121 | where there is no such reference nothing changes and the answer is no |
| BlobDatabase.DeleteUploadOwnerAnchors | src/db/memory.rs:117-126 | dropping one of several owners leaves the blob anchored |
| BlobDatabase.DeleteUploadKeeps | src/db/memory.rs:81-101 | deleting an upload debits each owner exactly once and keeps the balance |
| BlobDatabase.DeleteUploadRemoves | src/db/memory.rs:81-97 | deleting an upload removes its record and its references and no other |
| BlobDatabase.DeleteUploadCredits | src/db/memory.rs:89-95 | it takes off each key exactly what that key owned of it |
| BlobDatabase.DeleteUploadOfNothing | src/db/memory.rs:81-101 | where there is no such upload nothing changes and the answer is no |
| BlobDatabase.DeleteUploadAnchors | src/db/memory.rs:81-101 | deleting an upload leaves no owner of it behind |
| BlobDatabase.SetQuotaKeeps | src/db/memory.rs:141-153 | a quota change keeps the balance |
| BlobDatabase.SetQuotaSets | src/db/memory.rs:141-153 | the quota becomes the one given, for a new key too, and nothing else changes |
| BlobDatabase.RecordWithinQuota | src/db/memory.rs:36-64 | recording an upload takes no key's usage over the larger of its quota and its earlier usage |
| BlobDatabase.OthersAfterDelete | src/db/memory.rs:81-101 | deleting an upload changes nothing for a key that does not own it |
| Ownership.StepKeeps | src/server/mod.rs:946-1390 | every request keeps the balance, the anchoring and the agreement of database and store |
| Ownership.RunInvariant | src/server/mod.rs:946-1390 | the invariant holds in every state of every run |
| Ownership.UploadsRespectQuota | src/server/mod.rs:946-1174 | no upload takes the bytes a key owns over the larger of its quota and what it owned before |
| Ownership.AdmittedIsRecorded | src/server/mod.rs:946-1174 | an upload that passes the checks is recorded, unless the key's total would not fit 64 bits |
| Ownership.SoleOwner | src/server/mod.rs:1299-1330 | a member's delete reaches the stored blob only when nobody else owns it |
| Ownership.MemberDeleteIsOwn | src/server/mod.rs:1269-1390 | a member's delete leaves every other key's ownership records, usage and quota as they were and every blob it owns stored |
| Ownership.MemberNip96DeleteIsOwn | src/server/nip96.rs:329-416 | the same for the NIP-96 delete; what it does to reads is Fidelity.Nip96DeleteReadsIff |
| Answers.RefusalIff | src/server/mod.rs:946-1010 | an upload is turned away as empty, as over the size limit, or as over the quota of the key that signed it, exactly when that is the first to hold |
| Answers.UploadAnswer | src/server/mod.rs:946-1174 | an upload is answered Done exactly when it is not turned away and its key can have the reference |
| Answers.UploadDone | src/server/mod.rs:946-1174 | an upload answered Done leaves its key an owner of the stored hash, charged for it once, and no other key changed |
| Answers.UploadNotDone | src/server/mod.rs:946-1174 | an upload answered otherwise adds no reference and no upload record |
| Answers.UploadStores | src/server/mod.rs:1457-1650 | a mirror or NIP-96 upload writes its bytes over what is stored, any other only where nothing is |
| Answers.QuotaSet | src/db/memory.rs:141-153 | a quota change is always done and changes that quota alone |
| Answers.ClaimIff | src/server/mod.rs:1288-1330 | a delete is refused exactly to a denied key and to a member who does not own the blob, drops a reference exactly when a member shares it, and otherwise goes on |
| Answers.DeleteAnswer | src/server/mod.rs:1269-1390 | when each answer to a delete is given, over HTTP, iroh or NIP-96 |
| Answers.DeleteForbidden | src/server/mod.rs:1288-1308 | Forbidden: nothing has changed |
| Answers.DeleteRetained | src/server/mod.rs:1309-1330 | Retained: the key no longer owns the blob, which has one owner fewer, the key owns less by exactly that size, and nothing else has changed |
| Answers.DeleteDone | src/server/mod.rs:1379-1390 | Done: the hash has no owner and is not stored, each key owns less by what it owned of it, and no other hash has changed |
| Answers.DeleteNotFound | src/server/mod.rs:1379-1390 | NotFound: the blob was not stored, and owners and stored hashes are as before |
| Answers.AdminDeleteAnswer | src/storage/memory.rs:60-63 | an administrator's delete is done exactly when the blob is stored |
| Answers.BytesErased | src/server/nip96.rs:329-416 | a NIP-96 or administrator's delete takes the bytes alone and leaves every version record |
| Answers.RecordsErased | src/server/mod.rs:1379-1390 | an ordinary delete leaves no version record of the hash |
| Answers.SharedDeletes | src/server/mod.rs:1269-1390 | two keys upload the same bytes and each deletes them: the first delete keeps the blob, the second removes it |
| Fidelity.StepSimulates | src/server/mod.rs:946-1390 | each safe request gets the plain server's answer and keeps the store faithful to the plain one |
| Fidelity.DeleteReadsSame | src/server/mod.rs:1331-1390 | a delete that rebases leaves GET and HEAD of every other hash as they were |
| Fidelity.Nip96DeleteReadsIff | src/server/nip96.rs:329-416 | a NIP-96 delete does so if and only if it does not reach the bytes, or the read does not take them or already fell back |
| Fidelity.InsertReadsIff | src/server/nip96.rs:112-235 | a mirror or NIP-96 upload, of a recorded hash too, reads back if and only if that hash's record lets it |
| Fidelity.InsertReadsOthersIff | src/server/mod.rs:1457-1650 | such an upload leaves another read as it was if and only if it is refused, or that read does not come to the hash or makes the same of it |
| Fidelity.RunSimulates | src/server/mod.rs:946-1390 | along every safe run the server stands for the plain server |
| Fidelity.SameAnswers | src/server/mod.rs:946-1390 | along every safe run every request gets the plain server's answer |
| Fidelity.PlainIsContentAddressed | src/server/mod.rs:946-1174 | the plain server holds under each hash only bytes with that hash |
| Fidelity.ReadsAreOriginal | src/server/mod.rs:1181-1251 | after every safe run GET and HEAD answer with the bytes and size uploaded under the hash, and those bytes have that hash |
| BlobServer.MemoryBackend.InsertWithHash | src/storage/memory.rs:39-50 | stores the bytes and their size under the hash |
| BlobServer.MemoryBackend.DeleteBlob | src/storage/memory.rs:60-63 | removes bytes and size and reports whether they were there |
| BlobServer.LfsVersions.RecordVersion | src/lfs/mod.rs:232-236 | appends the record |
| BlobServer.LfsVersions.GetLatestVersion | src/lfs/mod.rs:242-253 | finds the latest record of a path in a repository |
| BlobServer.LfsVersions.DeleteBySha256 | src/lfs/mod.rs:255-258 | removes every record of a hash and keeps the others in order |
| BlobServer.LfsVersions.GetDeltasForBase | src/lfs/mod.rs:260-272 | finds the deltas that rest on a hash, in order |
| BlobServer.LfsVersions.UpdateVersion | src/lfs/mod.rs:274-287 | rewrites the first record of a hash and no other |
| BlobServer.MemoryDatabase.RecordUpload | src/db/memory.rs:36-64 | computes the recorded state or the refusal |
| BlobServer.MemoryDatabase.DeleteUploadOwner | src/db/memory.rs:117-126 | computes the state without that owner |
| BlobServer.MemoryDatabase.DeleteUpload | src/db/memory.rs:81-101 | the loop over the owners, in any order, computes the state with each debited |
| BlobServer.ReconstructWithin | src/lfs/mod.rs:71-131 | the walk loop and the replay loop compute the recursive reconstruction, errors included |
| BlobServer.ApplyChain | src/lfs/mod.rs:97-130 | the replay loop applies the deltas of a chain from the base upward and stops at the first failure |
| BlobServer.BlobServer.StoreUpload | src/server/mod.rs:1012-1135 | stores an upload in the form the server chooses |
| BlobServer.BlobServer.HandleUpload | src/server/mod.rs:946-1174 | the upload handler computes status and new state of store and database |
| BlobServer.BlobServer.HandleGet | src/server/mod.rs:1181-1214 | the GET handler returns what the stored form expands to |
| BlobServer.BlobServer.RebaseDeltas | src/server/mod.rs:1337-1377 | the loop rebases every delta that rests on the blob |
| BlobServer.BlobServer.HandleDelete | src/server/mod.rs:1269-1390 | the delete handler computes status and new state of store and database |
| Base64Url.EncodeIsUrlSafe | src/protocol.rs:57-76 | the encoding uses only URL-safe characters and has the length of unpadded base64 |
| Base64Url.EncodeSpells | src/protocol.rs:57-76 | each six-bit group is written as its character of the URL-safe alphabet |
| Base64Url.GroupsAreBits | src/protocol.rs:61-75 | every three bytes and the four groups they give are the same 24-bit number |
| Base64Url.LastBits | src/protocol.rs:61-75 | one byte left over is followed by four zero bits, two bytes by two |
| Base64Url.RoundTrip | src/protocol.rs:57-126 | decoding an encoding, padded or not, gives the data back |
| Base64Url.DecodeFailsIff | src/protocol.rs:79-126 | decoding fails for length exactly when the length is 1 modulo 4, and for a character exactly when one is unknown |
| Base64Url.EncodeChunk | src/protocol.rs:61-75 | one to three bytes, shifted and masked, give their groups of six bits |
| Base64Url.EncodeText | src/protocol.rs:57-76 | the loop over chunks computes the encoding of the whole |
| Base64Url.DecodeText | src/protocol.rs:79-126 | the decoding loop computes the decoding by groups, or its error |
| CivilDate.DayNumberOrder | src/server/locks.rs:122-161 | valid dates are ordered as their day numbers, and equal exactly when those are |
| CivilDate.DaysAreCounted | src/server/locks.rs:122-161 | the first of January 1970 is day zero and every day's number is one above the day before's |
| CivilDate.DaysToDate | src/server/locks.rs:122-161 | the year and month loops find the one valid date with that day number |
| CivilDate.StampAt | src/server/locks.rs:100-120 | the fields are a valid date and time that count back to the given seconds |
| CivilDate.StampIsUnique | src/server/locks.rs:100-120 | two valid dates and times with the same count of seconds are the same |
| CivilDate.FormatUnixTimestamp | src/server/locks.rs:100-120 | the text is the printed form of the valid date and time at that second, which exists and is the only one |
| CivilDate.FormatReads | src/server/locks.rs:100-120 | the text reads back as year, month, day, hours, minutes and seconds with their marks between them |
| CivilDate.FormatLength | src/server/locks.rs:100-120 | every text has at least 20 characters, so that it can be read so |
| CivilDate.FormatOrder | src/server/locks.rs:100-120 | up to the year 9999 timestamps sort as text exactly as they sort in time |
| CivilDate.TenThousandSortsWrong | src/server/locks.rs:100-120 | the first second of the year 10000 sorts before the last of 9999 |
| CivilDate.FormatOrderIff | src/server/locks.rs:100-120 | two timestamps sort as text as they do in time if and only if their years have as many digits or the shorter is at most the leading digits of the longer |
| CivilDate.SortUpToIff | src/server/locks.rs:100-120 | all timestamps up to a year sort as text as they do in time if and only if the year is before 10000 |
| PktLine.ParseRefUpdates | blossom-nip34/src/git_server/pktline.rs:71-109 | the position loop computes the recursive parse, errors included |
| PktLine.RoundTrip | blossom-nip34/src/git_server/pktline.rs:36-109 | printed updates, mixed with other lines, then a stop packet and any bytes, parse to exactly those updates in order |
| PktLine.OnlyWellFormed | blossom-nip34/src/git_server/pktline.rs:31-109 | every update parsed from any body has two 40-digit object ids and a ref name under refs/ |
| PktLine.IgnoresTail | blossom-nip34/src/git_server/pktline.rs:75-105 | nothing after the first stop packet changes the outcome |
| PktLine.UpdateRoundTrip | blossom-nip34/src/git_server/pktline.rs:36-66 | a printed update, with or without newline or capabilities, is recognised and parses to itself |
| PktLine.LengthRoundTrip | blossom-nip34/src/git_server/pktline.rs:76-80 | every printed four-digit length parses to itself |
| PktLine.UpdateIff | blossom-nip34/src/git_server/pktline.rs:94-103 | exactly the lines that are text and start with two 40-digit object ids are taken for updates; all others are skipped |
| PktLine.LengthRefused | blossom-nip34/src/git_server/pktline.rs:76-80 | a length that is no text, or has a character that is no hexadecimal digit, is refused with its error |
| PktLine.PlusIsAllowed | blossom-nip34/src/git_server/pktline.rs:79-80 | a plus sign before three digits is accepted, as the number parser of the source does |
| PktLine.BadLength | blossom-nip34/src/git_server/pktline.rs:82-91 | a length of three is too short, and one beyond the body is refused |
| PktLine.BadRef | blossom-nip34/src/git_server/pktline.rs:41-58 | two object ids with no ref name, or one not under refs/, are refused |
| TokenBucket.RateLimiter.constructor | src/ratelimit.rs:49-54 | a new limiter tracks no key |
| TokenBucket.RateLimiter.Sweep | src/ratelimit.rs:127-136 | keeps exactly the buckets refilled after the threshold |
| TokenBucket.RateLimiter.Request | src/ratelimit.rs:59-111 | computes the answer and the new buckets |
| TokenBucket.CleanupKeeps | src/ratelimit.rs:127-136 | a sweep keeps exactly the buckets refilled within the age, unchanged |
| TokenBucket.FullIff | src/ratelimit.rs:65-70 | a request is refused for room exactly when its key is new and 10,000 keys were all refilled within ten minutes |
| TokenBucket.RunBounded | src/ratelimit.rs:59-111 | in every run, whatever the clock does, no bucket exceeds its size and at most 10,000 keys are tracked |
| RateBound.LifetimeBound | src/ratelimit.rs:59-111 | under any clock and rate, from the request that starts a bucket on, requests allowed and tokens left come to no more than a full bucket and the whole tokens the time up to its last refill is worth |
| RateBound.BurstAllowed | src/ratelimit.rs:59-111 | of requests at one moment exactly as many are allowed as the first of them finds tokens, a full bucket for a new key |
| RateBound.BurstOfTracked | src/ratelimit.rs:82-111 | of a tracked key's requests at one moment exactly as many are allowed as the smaller of a full bucket and its tokens plus the whole tokens that the seconds since its last refill times the rate come to |
| RateBound.BurstOfNew | src/ratelimit.rs:72-78 | of a new key's exactly a full bucket |
| RateBound.BurstLeft | src/ratelimit.rs:82-111 | what they leave, and that the refill time moves only when a whole token was earned |
| RateBound.DroppingShowsIff | src/ratelimit.rs:127-136 | all later requests of a dropped key at any one moment get the answers they would have got if and only if the refill the bucket was due would have filled it |
| RateBound.LongAgeIsHarmless | src/ratelimit.rs:65-70 | a sweep by an age that fills any bucket drops only buckets due to be full |
| RateBound.ForgettingIsInvisible | src/ratelimit.rs:59-136 | on runs whose clock does not step back and whose sweeps drop only buckets due to be full, requests not refused for room get the answers of a limiter that forgets nothing |
| RateBound.WindowBound | src/ratelimit.rs:59-136 | in every window of such a run a key is allowed fewer than a full bucket plus one plus what the window is worth |
| Framing.RecvStream.ReadExact | src/transport/iroh_client.rs:270-276 | exactly the next bytes, or nothing when the stream holds fewer |
| Framing.ReadResponse | src/transport/iroh_client.rs:758-779 | frame and leftover are those of the whole stream, however it is cut into pieces |
| Framing.ReadBody | src/transport/iroh_client.rs:268-278 | leftover and further bytes, completed and cut, are the announced number of bytes after the line |
| Framing.Download | src/transport/iroh_client.rs:262-290 | the outcome is a function of the bytes of the stream, not of the pieces |
| Framing.FetchOf | src/transport/iroh_client.rs:262-290 | what comes of each response: refused, cut short, of another hash, or exactly the announced bytes |
| Framing.FetchIsGenuine | src/transport/iroh_client.rs:262-290 | only bytes of the hash asked for are returned, from a response that says all is well |
| Framing.LineRoundTrip | src/transport/wire.rs:112-129 | an encoded frame decodes to itself and its own length, whatever follows |
| Framing.DownloadRoundTrip | src/transport/iroh_transport.rs:710-718 | a response and body sent whole come back as that body |
| Framing.CutIsNoticed | src/transport/iroh_client.rs:262-290 | a transmission cut anywhere yields the error of the place where it is cut and never data |
| Framing.ReadRequestLine | src/transport/iroh_transport.rs:136-174 | the byte loop finds the request of the whole stream, or its error, and leaves the body unread |
| Framing.RequestLineRoundTrip | src/transport/iroh_transport.rs:136-174 | an encoded request is read back if it has at most 16,384 bytes with its newline, and is refused otherwise |

## Left out

- CachesAgreeIff: agreement means holding the same after every attempt and answering every attempt at that time alike; holding the same alone can return after a difference (MayMeetAgain, CachesMeetAgain) and has no condition of its own here.
- AcceptedOnce: asks for a clock that does not step back and stays below the largest 64-bit value; the 30 seconds are tight (GapIsTight). On the HTTP server it asks that no older copy of the id is queued, without which it fails (AcceptedTooSoon).
- ReadsAreOriginal: holds along safe runs. An upload is safe when it is refused, or when its chosen form is kept with a record and, as a delta, rests on a base at most nine deep and fits the decoder's buffer; PutSound and PutSafe list what the code accepts beyond that. NIP-96 uploads and deletes and admin deletes, which do not rebase, are safe for blobs without LFS records; for the others InsertReadsIff, InsertReadsOthersIff and Nip96DeleteReadsIff say exactly what still reads the same.
- Soundness: proofs whose length differs from the tree's height are not covered; the source does not bind the height.
- LifetimeBound: refill arithmetic is over the reals, here and in the other results of RateBound, so the rounding of 64-bit floats is not modelled.
- FormatOrder: stops at the year 9999, beyond which the text no longer sorts (SortUpToIff, FormatOrderIff).
- Concurrency: requests are taken one at a time, as the server's state lock, the cache mutexes and the bucket map's entry guard order them; the length test before a new bucket is made runs outside that guard in the source.
- Signature checking, tag binding and NIP-98 details of authorization: a request carries the outcome of the checks that depend on neither clock nor cache.
- Access control, MIME and size requirements, rate limits and body reading before the upload handler: their outcomes are inputs.
- The fetch that precedes a mirror upload, media processing, and the list, status and S3-compatible endpoints.
- SQLite, PostgreSQL, filesystem and S3 backends: the in-memory backends are modelled.
- Statistics, webhooks, LFS locks other than their timestamps, and the LFS storage summary.
- The iroh upload and delete handlers beyond framing and replay: they repeat the HTTP handlers' steps.
- The text of error messages: errors are constructors.
- The contents of zstd and xdelta3 streams and the narrowing of lengths to C's unsigned int at the xdelta3 boundary.
