# Verified model of anon-vote

A Dafny model of the anonymous voting protocol of this repository, from the ring signature to the
tally, with the indexers and the faucet in between.

A voter announces a voting key in a `system.remark`. The announces up to a block, read the same way by
everybody, give a *ring* of keys. A vote is a BLSAG ring signature over the ring at some block `rb`; its
*key image* is the same for everything the key signs, so the tally can drop duplicates without learning
who voted. A faucet pays the transaction fee of a fresh gas wallet against a ring signature of its own.
Everything depends on signer, faucet, browser and auditor deriving the same ring from logs that they
assembled differently: out of order, with failing fetches, from a cache, with overlapping scans.

`dafny verify dfyconfig.toml` checks the whole project.

## What is proved

- **Signatures** (`Group`, `Blsag`, `BlsagCompleteness`, `BlsagEquations`, `BlsagSoundness`, `SmallSuite`). The
  group, its encoding and the hashes are parameters constrained by laws; `SmallSuite.SmallIsLawful` gives an instance
  of all of them. Every honest signature verifies, for every ring (repeated members included), message and
  choice of randomness, except when the signer's key hashes to the identity, and then the verifier's answer
  is `InvalidKeyImage`. Of two accepted signatures that differ only in responses, either some step of their two
  challenge chains hashes different inputs to one challenge, or some step hashes one input for two challenges, and
  the difference of its responses over the difference of its challenges is a ring member's secret key; with one
  response changed, only the first is left. If one signature is accepted for two statements, the last inputs the
  verifier hashes collide, or the binding inputs of the two rings do. `BlsagEquations` says what a signature holds
  and what is asked of it as equations over the group and the hash, down to the bytes that are hashed.
- **Wire formats** (`Text`, `Wire`, `JsonText`, `WasmBoundary`). The exact sets of texts that parse, round trips,
  disjoint remark kinds, injective and disjoint signed messages, exactly when verification throws. `JsonText` shows
  that what is asked of the platform's JSON can be met.
- **Rings and tally** (`Log`, `Ring`, `Announced`, `FirstWins`, `Tally`, `Finality`, `BallotBound`, `DoubleVote`,
  `VotingKeys`, `Examples`).
  `reconstructRing` and `tallyRemarks` are loops proved against declarative definitions; on those, snapshot
  stability, freezing at the start block, append-only finality, finality of the count at the end block, conservation,
  independence of order between blocks, the bound on ballots, exactly when one voter can be counted twice, and exactly
  which rings can be voted with. The ring, each verdict and each counter are also spelled out from the texts and
  blocks of the remarks.
- **Indexers** (`Workers`, `UiIndexer`, `Overlap`, `IndexerCache`, `RingIndexer`). Which blocks fail and
  after how many fetches a scan is aborted or a tab is closed are parameters; which fetch ends next is a free
  choice (`:|`), so a scan's contract speaks of every schedule. `Lifetime` and `Serve` choose those parameters
  freely (`*`) step after step, so their contracts speak of every reachable state. `Overlap`
  is a state machine of the calls behind the browser's in-flight lock; its results speak of every run.
- **Faucet** (`Faucet`). The same way: any interleaving of requests that wait for their transfers.
- **End to end** (`EndToEnd`). A vote signed with the ring at block `h` of a log complete through `h` is
  counted by every tally over every longer log, unless an earlier valid ballot has the same key image; a drip
  signed that way passes the faucet's checks at any later time.

## Where the code and its documentation differ

The model follows the code. Each point has a lemma with a concrete input or an exact condition.

- README.md:278 says that each eligible voter votes at most once. A voter who announces a second key before
  the start can sign with both, over two different ring blocks, and be counted twice: `Examples.AliceCountsTwice`.
  With anonymous votes alone that is the only way; besides, any voter who can vote anonymously can have a clear
  vote counted too (packages/shared/src/index.ts:568-571 says so). Both conditions are exact:
  `VotingKeys.CountedTwiceIff`.
- packages/shared/src/index.ts:184-196 accepts any 64 hexadecimal digits as a key, but a ring with one member that is no
  point can neither be signed over nor verified. One allowlisted voter who announces such a text makes every ring
  with it useless, and once voting has opened over such a ring, for good: `Examples.BobShutsOutAlice`,
  `VotingKeys.SomeVoteValidIff`, `VotingKeys.DeadForGood`.
- packages/ui/src/hooks/useIndexer.ts:109-110 says that forced catch-ups are safe to repeat because they serialize on the
  in-flight lock. A call that waits for a pass starts its own when that pass ends, without looking at the lock again,
  beside the one that the tail of the first call starts; a pass that ends also drops the lock of another one. The
  pass that ends last wipes what the others found in its window: `Overlap.OverlapLosesARemark`, with a single forced
  call. Exactly when harm is done: `Overlap.OverlappingPassesSoundIff`; it lasts for the session:
  `Overlap.WipedForGood`. What line 340 says of head ticks holds: `Overlap.CalmIsSerial`.
- packages/ui/src/hooks/useIndexer.ts:25 says that remarks are in block order. They are kept in the order in which
  they landed: `Examples.LandedOutOfOrder`, and exactly when they are in order: `UiIndexer.MergedInOrderIff`,
  `Workers.LandsInOrderIff`. What always holds is equality block by block (`UiIndexer.Whole`), which is all a tally
  sees (`EndToEnd.BrowserTallyIsAuditors`).
- packages/ui/src/hooks/useIndexer.ts:10-13 promises tolerance of short reorganisations; a session that started without
  a cache has no margin: `UiIndexer.ReorgHealsIff`.
- packages/api/src/faucet/ring-indexer.service.ts:99 calls `scannedThrough` fully scanned. A block whose fetch failed is
  passed over for good: `Examples.LostBlockExample`, `RingIndexer.FullyScannedIff`.
- packages/cli/src/chain.ts:97-106 says that a failing block is not fatal; the code rethrows and the scan fails. With a
  concurrency of zero or less the scan is empty and succeeds (`Workers.CliScanRemarks`).
- packages/ui/src/hooks/useRing.ts:44-48 calls the voter's key the latest one announced. When a voter announced twice in one block the
  browser may show the key that is not in the ring: `Examples.TwoAnnouncesInOneBlock`,
  `Announced.MyKeyIsMyRingKey`.
- packages/shared/src/index.ts:95-104 distinguishes a verifier that threw from one that answered no. The auditor's
  verifier never throws (packages/cli/src/ring-sig.ts:41-47), the browser's does, so the two report different
  reasons for the same remark; everything else agrees: `EndToEnd.BrowserTallyIsAuditors`.
- An empty proposal id can be encoded but not parsed: `Wire.AnnounceRoundTrip`.

## Model

| member | source | states |
|---|---|---|
| Text.HexRoundTrip | packages/ring-sig/wasm/src/lib.rs:90-94 | decoding hexadecimal text undoes encoding |
| Text.HexRoundTripText | packages/ring-sig/wasm/src/lib.rs:133-144 | encoding undoes decoding, up to letter case |
| Text.HexEncodeAt | packages/ring-sig/wasm/src/lib.rs:90-94 | each byte is two digits, the high half first |
| Text.SameBytesIff | packages/api/src/faucet/faucet.service.ts:169 | hexadecimal texts agree in lower case exactly when they hold the same bytes |
| Text.TrimDrops | packages/ring-sig/wasm/src/lib.rs:133-144 | trimming drops white space at both ends and nothing else |
| Text.LessTotal | packages/shared/src/index.ts:506 | key order: exactly one of less, equal, greater |
| Text.LessTransitive | packages/shared/src/index.ts:506 | key order is transitive |
| Text.LessIff | packages/shared/src/index.ts:506 | the key order is dictionary order: the first difference decides, and a proper prefix comes first |
| Text.DecimalInjective | packages/shared/src/index.ts:373-398 | different block numbers print differently |
| Text.DecimalIff | packages/shared/src/index.ts:373-398 | a block number prints as its numeral, without leading zeros, and as nothing else |
| Text.Utf8Injective | packages/shared/src/index.ts:893-900 | the bytes of a text determine the text (section 3 of RFC 3629) |
| Text.Utf8CharDenotes | packages/shared/src/index.ts:893-900 | what the bytes of a character mean, bit group by bit group (section 3 of RFC 3629) |
| Text.Utf8Append | packages/shared/src/index.ts:893-900 | the bytes of a text are those of its parts, in order |
| Wire.AnnounceTexts | packages/shared/src/index.ts:184-196 | exactly which texts parse as which announce, letter by letter |
| Wire.StartTexts | packages/shared/src/index.ts:230-235 | exactly which texts open which proposal |
| Wire.ClearVoteTexts | packages/shared/src/index.ts:348-359 | exactly which texts are which clear vote |
| Wire.AnnounceRoundTrip | packages/shared/src/index.ts:163-196 | what encodes, to which text, which error is given otherwise, and that parsing gives it back up to case, exactly for ids that are not empty |
| Wire.StartRoundTrip | packages/shared/src/index.ts:216-235 | the same for start remarks |
| Wire.ClearVoteRoundTrip | packages/shared/src/index.ts:335-359 | the same for clear votes |
| Wire.VoteTexts | packages/shared/src/index.ts:284-318 | exactly which texts are which vote, from the JSON values they hold |
| Wire.VoteRoundTrip | packages/shared/src/index.ts:263-318 | a vote with a safe ring block read back is the vote written |
| JsonText.PrintInjective | packages/shared/src/index.ts:263-277 | the JSON text of a vote determines the vote |
| JsonText.VoteCodecIsFaithful | packages/shared/src/index.ts:263-318 | what is asked of the platform's JSON has a model |
| Wire.KindsDisjoint | packages/shared/src/index.ts:184-359 | no text is two kinds of remark |
| Wire.Utf8ToHex | packages/shared/src/index.ts:893-900 | the loop computes the hexadecimal UTF-8 text |
| Wire.VoteMessageInjective | packages/shared/src/index.ts:373-379 | a signed vote determines proposal, choice and ring block |
| Wire.DripMessageInjective | packages/shared/src/index.ts:392-398 | a signed drip determines proposal, colon-free gas address and ring block |
| Wire.VoteIsNotDrip | packages/shared/src/index.ts:373-398 | no vote message is a drip message |
| Wire.VoteTextIs | packages/shared/src/index.ts:373-379 | exactly which text a vote signs, from the word and the numeral |
| Wire.DripTextIs | packages/shared/src/index.ts:392-398 | exactly which text a drip signs |
| Wire.VoteBytes | packages/shared/src/index.ts:373-379 | the signed message is the UTF-8 bytes of that text in hexadecimal |
| Wire.DripBytes | packages/shared/src/index.ts:392-398 | the same for a drip |
| Log.OrderedLogUnique | packages/shared/src/index.ts:676-678 | a log in block order is fixed by what each block holds |
| Log.SortIsStable | packages/shared/src/index.ts:676-678 | the sort orders blocks and keeps the order inside each |
| Log.SortUnique | packages/ui/src/indexer.ts:154 | nothing else is a stable sort of the log |
| Log.SortExtension | packages/shared/src/index.ts:676-678 | appending later blocks appends to the sorted log |
| Log.ScanBlocks | packages/cli/src/chain.ts:49-65 | the plain scan holds each block of the range once, in order, and nothing else |
| Ring.VotingStartIs | packages/shared/src/index.ts:238-257 | the start block is the lowest block with the coordinator's start remark |
| Ring.OpensVotingIff | packages/shared/src/index.ts:230-257 | exactly which remarks open the voting: text, proposal and coordinator |
| Ring.FindVotingStartBlock | packages/shared/src/index.ts:243-257 | the loop finds that block |
| Ring.LatestAnnounces | packages/shared/src/index.ts:459-494 | the first loop keeps, for each eligible signer, the highest (block, key) announced before the start |
| Ring.DistinctKeys | packages/shared/src/index.ts:496-507 | the second loop lists each of those keys once, ascending |
| Ring.AscendingUnique | packages/shared/src/index.ts:496-507 | one strictly ascending list for each set of keys |
| Ring.ReconstructRing | packages/shared/src/index.ts:446-508 | the ring is, in dictionary order, the last key that each voter announced on time, whatever the order and repetition of the log; in one block the larger key is the last |
| Ring.WinnerIff | packages/shared/src/index.ts:459-494 | the announce that counts, from the texts of the remarks alone |
| Ring.RingSpelledOut | packages/shared/src/index.ts:446-508 | the canonical ring of a log meets that description |
| Ring.ComputeRingAt | packages/shared/src/index.ts:522-543 | the same for exactly the remarks up to the block |
| Ring.StartsAgree | packages/shared/src/index.ts:243-257 | logs that agree through `h` agree on the start block, or neither has it by `h` |
| Ring.SnapshotStable | packages/shared/src/index.ts:510-543 | logs that agree through `h` give the same ring at every block up to `h`, start remark seen or not |
| Ring.RingFreezes | packages/shared/src/index.ts:477-487 | from the block before the start on, all rings are the same list |
| Ring.FrozenRingIsFinal | packages/shared/src/index.ts:477-487 | no later block changes the start or any ring |
| Announced.RingSize | packages/shared/src/index.ts:650-664 | ring length is at most the announced signers, with equality exactly when no two share a key |
| Announced.CollectAnnouncedSigners | packages/shared/src/index.ts:650-664 | the tally's gate for clear votes |
| Announced.AnnouncedVoterCount | packages/api/src/faucet/ring-indexer.service.ts:115-132 | the faucet counts the same signers |
| Announced.UseRing | packages/ui/src/hooks/useRing.ts:67-133 | the browser's ring, its last announce blocks and the voter's own key |
| Announced.AnnounceLoopsAgree | packages/ui/src/hooks/useRing.ts:98-114 | the browser lists exactly those signers |
| Announced.LastBlockIsLatest | packages/ui/src/hooks/useRing.ts:108-114 | each with the block of the announce that counts for the ring |
| Announced.MyKeyIsMyRingKey | packages/ui/src/hooks/useRing.ts:115-123 | exactly when the key the browser shows is the voter's key in the ring |
| Announced.MyKeyInRing | packages/ui/src/hooks/useRing.ts:115-123 | it is, for a voter who never announced twice in one block |
| Examples.TwoAnnouncesInOneBlock | packages/ui/src/hooks/useRing.ts:115-123 | otherwise it may not be |
| FirstWins.FirstPickedIff | packages/shared/src/index.ts:847-860 | first wins: what is kept is exactly what is picked before anything else of its key |
| FirstWins.CollectPlaces | packages/shared/src/index.ts:680-861 | what the loop collects are the picks of certain places, in order, and of no others |
| FirstWins.FirstPerDistinct | packages/shared/src/index.ts:847-860 | no key is kept twice |
| Tally.VoteVerdict | packages/shared/src/index.ts:754-845 | the checks on a vote, in order, with the ring at its ring block |
| Tally.VerdictOn | packages/shared/src/index.ts:680-845 | what one remark is worth before duplicates are dropped |
| Tally.RecordVerdict | packages/shared/src/index.ts:738-860 | the two duplicate sets, the counters and the lists move together |
| Tally.TallyStep | packages/shared/src/index.ts:680-861 | one turn of the loop, on the declarative tally |
| Tally.TallyRemarks | packages/shared/src/index.ts:584-870 | the loop computes the declarative tally: first ballot of each key image, first clear vote of each signer, every other relevant remark rejected |
| Tally.CountersAre | packages/shared/src/index.ts:738-862 | each counter is the number of counted votes and counted clear votes for its own choice |
| Tally.RejectionsListed | packages/shared/src/index.ts:666-680 | the list of reasons has one entry for each rejected remark, in stable block order |
| Tally.CountedIff | packages/shared/src/index.ts:678-861 | a vote is counted exactly when it is valid somewhere and no earlier valid ballot has its key image |
| Tally.ClearCountedIff | packages/shared/src/index.ts:683-752 | a clear vote is counted exactly when it is valid somewhere and no earlier valid one has its signer |
| Tally.ValidBallotIff | packages/shared/src/index.ts:754-845 | what makes a vote valid |
| Tally.ValidClearIff | packages/shared/src/index.ts:683-737 | what makes a clear vote valid |
| Tally.VoteRejectedIff | packages/shared/src/index.ts:754-845 | exactly which votes are rejected, and with which reason |
| Tally.ClearRejectedIff | packages/shared/src/index.ts:683-737 | exactly which clear votes are rejected, and with which reason |
| Tally.IrrelevantIff | packages/shared/src/index.ts:683-758 | a remark leaves no trace exactly when it is neither kind of vote on the proposal |
| Tally.TallyConserves | packages/shared/src/index.ts:584-870 | relevant remarks are counted, rejected or dropped as duplicates, and all counters add up |
| Tally.TallyOrderFree | packages/shared/src/index.ts:676-678 | the result is unchanged by any reordering that keeps the order inside blocks |
| Finality.VerdictFinal | packages/shared/src/index.ts:637-664 | with the start known, later blocks change no verdict, even for ring blocks beyond the log |
| Finality.VerdictsOnlyMature | packages/shared/src/index.ts:678-861 | no rejected remark becomes valid; a reason changes only from no start remark to before the start |
| Finality.AppendOnlyFinality | packages/shared/src/index.ts:678-861 | accepted votes, clear votes and rejections of a log are prefixes of those of any extension by later blocks |
| Finality.DeadlineFinal | packages/shared/src/index.ts:683-861 | logs with the same blocks before the end block have the same votes, clear votes and totals, whatever else they hold |
| BallotBound.BallotKey | packages/shared/src/index.ts:789-845 | unless forged, a counted vote's key image is the image of a key of its ring that was announced before the start |
| BallotBound.VotesBoundedByKeys | packages/shared/src/index.ts:791-861 | unless some counted vote is forged, at most one counted vote for each key announced before the start |
| BallotBound.VotesBoundedByVoters | packages/shared/src/index.ts:650-861 | at most one for each announced voter, if each announced one key or every counted ring block is at least the start minus one |
| BallotBound.ClearVotesBounded | packages/shared/src/index.ts:683-752 | at most one clear vote for each announced voter |
| BallotBound.TotalBounded | packages/shared/src/index.ts:584-870 | under the same condition, at most twice the allowlist |
| DoubleVote.BallotsDontTouchRings | packages/shared/src/index.ts:446-508 | adding votes and clear votes changes neither the start nor any ring |
| DoubleVote.DoubleBallotNeedsTwoKeys | packages/shared/src/index.ts:791-861 | two counted votes of one voter's two keys need both keys to be able to vote, with different images |
| DoubleVote.DoubleBallotIff | packages/shared/src/index.ts:791-861 | for any verifier: a voter can have two counted anonymous votes exactly when it announced two keys that can each vote |
| DoubleVote.ClearAndAnonymousIff | packages/shared/src/index.ts:568-571 | for any verifier: a voter can have a clear and an anonymous vote counted exactly when it announced a key that can vote |
| VotingKeys.SecretUnique | packages/ring-sig/vendored/blsag/src/lib.rs:240-247 | a key has at most one secret |
| VotingKeys.HolderVerifies | packages/ring-sig/wasm/src/lib.rs:80-129 | the holder of a key in a ring of points can sign any text over it |
| VotingKeys.SchemeCanSign | packages/ring-sig/wasm/src/lib.rs:80-129 | the scheme's own verifier accepts every key with a secret that can sign, over rings of points |
| VotingKeys.SchemeOnlyAble | packages/ring-sig/vendored/blsag/src/lib.rs:431-485 | and a verified key image of a ring key shows the ring to be of points and the key to have such a secret |
| VotingKeys.CountedTwiceIff | packages/shared/src/index.ts:791-861 | both exact conditions for the scheme's own verifier |
| VotingKeys.SomeVoteValidIff | packages/ring-sig/vendored/blsag/src/lib.rs:473-485 | a ring member's holder can cast a valid vote over a ring exactly when every member encodes a point |
| VotingKeys.DeadForGood | packages/shared/src/index.ts:477-487 | once voting opened over a ring with a member that is no point, no later vote over a ring block from then on is ever valid |
| Examples.BobShutsOutAlice | packages/shared/src/index.ts:184-196 | a log whose ring holds a text that is no point: no vote over a ring block from the start on is ever valid |
| Examples.AliceCountsTwice | packages/shared/src/index.ts:584-870 | a log to which two votes of one voter can be added that are both counted, and a clear vote beside an anonymous one |
| Group.Inverse | packages/ring-sig/vendored/blsag/src/lib.rs:327-330 | scalars have inverses modulo a prime |
| Group.NoTorsion | packages/ring-sig/vendored/blsag/src/lib.rs:240-247 | in a group of prime order only multiples of the order annihilate a point other than the identity |
| Group.ResiduesLawful | packages/ring-sig/vendored/blsag/src/lib.rs:145-165 | the group laws have a model |
| SmallSuite.SmallIsLawful | packages/ring-sig/vendored/blsag/src/lib.rs:138-222 | all assumptions on the primitives have a model |
| Blsag.LeDecodeInjective | packages/ring-sig/vendored/blsag/src/lib.rs:138-140 | a scalar has one canonical encoding |
| Blsag.LeDecodeAppend | packages/ring-sig/vendored/blsag/src/lib.rs:138-140 | scalars are little-endian: a further byte counts for more than all before it |
| Blsag.ComputeRingBinding | packages/ring-sig/vendored/blsag/src/lib.rs:183-191 | the hasher is fed tag, members and key image, in that order |
| Blsag.DecodeRing | packages/ring-sig/vendored/blsag/src/lib.rs:286-298 | a ring decodes exactly when no member is the identity or invalid |
| Blsag.FindSigner | packages/ring-sig/vendored/blsag/src/lib.rs:300-306 | the first position of the signer's key, if it is there |
| Blsag.FillChallenges | packages/ring-sig/vendored/blsag/src/lib.rs:336-372 | the modular walk ends and fills every challenge |
| Blsag.Recompute | packages/ring-sig/vendored/blsag/src/lib.rs:513-531 | the verifier's loop computes the challenge chain |
| Blsag.Verify | packages/ring-sig/vendored/blsag/src/lib.rs:431-544 | the verifier: its errors in order, then whether the chain closes |
| Blsag.Sign | packages/ring-sig/vendored/blsag/src/lib.rs:268-413 | the signer: its errors in order, then the closed chain |
| BlsagCompleteness.ClosingCommit | packages/ring-sig/vendored/blsag/src/lib.rs:374-382 | the closing response turns the signer's commitment back into the nonce's |
| BlsagCompleteness.ChainFollowsWalk | packages/ring-sig/vendored/blsag/src/lib.rs:345-382 | recomputing the chain from the closed responses visits the signer's challenges and returns to the first |
| BlsagCompleteness.ImageIsIdentityIff | packages/ring-sig/vendored/blsag/src/lib.rs:240-247 | a ring key's image is the identity exactly when the key hashes to the identity |
| BlsagCompleteness.SignSucceedsIff | packages/ring-sig/vendored/blsag/src/lib.rs:268-306 | exactly when signing succeeds |
| BlsagCompleteness.HonestSignatureVerifies | packages/ring-sig/vendored/blsag/src/lib.rs:268-544 | completeness, with the key image of the signer's secret |
| BlsagCompleteness.OwnKeyTwiceSigns | packages/ring-sig/vendored/blsag/src/lib.rs:963-974 | every secret but zero can sign, already with a ring that repeats its own key |
| BlsagCompleteness.HonestLink | packages/ring-sig/vendored/blsag/src/lib.rs:546-556 | honest signatures link exactly when their secrets have the same image, whatever was signed |
| BlsagEquations.BindingBytes | packages/ring-sig/vendored/blsag/src/lib.rs:183-192 | every byte that is hashed for a ring binding, and where |
| BlsagEquations.KeyImageIs | packages/ring-sig/vendored/blsag/src/lib.rs:240-247 | the key image of a canonical secret, and the error for any other |
| BlsagEquations.VerifyErrors | packages/ring-sig/vendored/blsag/src/lib.rs:431-499 | which malformed signature gets which error |
| BlsagEquations.AcceptedIff | packages/ring-sig/vendored/blsag/src/lib.rs:500-543 | a well-formed signature is accepted exactly when challenges exist that satisfy the equation of every member and close |
| BlsagEquations.SignErrors | packages/ring-sig/vendored/blsag/src/lib.rs:268-306 | which malformed request to sign gets which error |
| BlsagEquations.SignEquations | packages/ring-sig/vendored/blsag/src/lib.rs:308-404 | a signature holds the secret's image, the drawn responses, and at the first place of the signer's key the nonce less the recomputed challenge times the secret; the next challenge hashes the nonce's commitments |
| BlsagSoundness.WalkBack | packages/ring-sig/vendored/blsag/src/lib.rs:513-543 | chains that meet after different responses collide at one of their own steps, or one of their steps gives a member's secret as the quotient of its response and challenge differences |
| BlsagSoundness.TwoSignaturesExtract | packages/ring-sig/vendored/blsag/src/lib.rs:477-543 | special soundness: two accepted signatures with different responses collide at a step of their own chains, or answer two challenges on one hash input there, and the quotient of the differences is a member's secret whose image is the key image |
| BlsagSoundness.OneResponseChanged | packages/ring-sig/vendored/blsag/src/lib.rs:889-904 | changing response `i` of an accepted signature is accepted only if the two chains collide at a step from `i` on |
| BlsagSoundness.StatementBinding | packages/ring-sig/vendored/blsag/src/lib.rs:183-222 | if a signature is accepted for two pairs of ring and message, the last inputs it is verified with collide, or the binding inputs of the rings do |
| Workers.ClaimOk | packages/ui/src/indexer.ts:88-92 | a claimed block was never claimed before |
| Workers.LandOk | packages/ui/src/indexer.ts:127-133 | a landed block contributes its remarks once |
| Workers.LandsInOrderIff | packages/ui/src/indexer.ts:127-133 | a landing keeps the remarks in block order exactly when the block is empty or no later block with remarks landed before |
| Workers.SortedIsScan | packages/ui/src/indexer.ts:154 | sorting what landed gives the sequential scan of those blocks |
| Workers.Advance | packages/ui/src/indexer.ts:80-86 | the prefix grows to the first block that has not landed, and no further |
| Workers.ScanRemarks | packages/ui/src/indexer.ts:62-156 | under every schedule: exactly the blocks that do not fail, in sequence, progress that never goes back, an end just before the lowest failing block; aborted, a part of that |
| Workers.CliScanRemarks | packages/cli/src/chain.ts:59-118 | with at least one worker the scan fails exactly when some block of the range does, and else is the complete sequential list |
| Workers.ScanRange | packages/api/src/faucet/ring-indexer.service.ts:209-280 | exactly the blocks that do not fail, in sequence; destroyed, a part of them |
| UiIndexer.RescanPoint | packages/ui/src/hooks/useIndexer.ts:349-355 | a resumed session rescans the last ten blocks, within the proposal; one without a cache goes on behind what it has scanned |
| UiIndexer.ChunkIsWhole | packages/ui/src/hooks/useIndexer.ts:398-421 | a chunk written during a pass is the whole chain through the block it claims |
| UiIndexer.PassKeepsSound | packages/ui/src/hooks/useIndexer.ts:343-430 | whatever failed, the index is exact below the next rescan point |
| UiIndexer.CleanPassIff | packages/ui/src/hooks/useIndexer.ts:215-218 | a pass without failures leaves the whole chain exactly when the part it did not rescan was right |
| UiIndexer.CleanPassIsFullScan | packages/ui/src/hooks/useIndexer.ts:343-430 | crash and resume equal a full scan |
| UiIndexer.SoundAfterReorgIff | packages/ui/src/hooks/useIndexer.ts:51-63 | an index survives a reorganisation exactly when the chains agree below the rescan point |
| UiIndexer.ReorgHealsIff | packages/ui/src/hooks/useIndexer.ts:51-63 | a pass heals exactly the reorganisations of the last ten scanned blocks, and none in a session without a cache |
| UiIndexer.Mount | packages/ui/src/hooks/useIndexer.ts:166-196 | a session starts from what the cache gives, or from nothing |
| UiIndexer.Indexer.ChunkOf | packages/ui/src/hooks/useIndexer.ts:409-417 | what a chunk holds |
| UiIndexer.Indexer.OnProgress | packages/ui/src/hooks/useIndexer.ts:383-421 | progress moves the cursor; a chunk is written when 500 blocks are unsaved or the clock asks for it, and not before |
| UiIndexer.Indexer.Fetch | packages/ui/src/hooks/useIndexer.ts:366-422 | the scan with its callbacks, under every schedule, closed after any number of fetches |
| UiIndexer.Indexer.CatchUp | packages/ui/src/hooks/useIndexer.ts:343-430 | what one pass does to every block; closed at any step it leaves the old snapshot or a chunk, and with reliable storage fewer than 500 blocks of progress are lost |
| UiIndexer.Lifetime | packages/ui/src/hooks/useIndexer.ts:157-430 | any passes, failures, crashes, reloads, lost writes, cleared caches and other pages' writes keep refs and cache sound |
| UiIndexer.MergedInOrderIff | packages/ui/src/hooks/useIndexer.ts:215-218 | the refs are in block order after a merge exactly when what was kept is, and the pass landed in block order |
| Examples.LandedOutOfOrder | packages/ui/src/hooks/useIndexer.ts:380-382 | a complete pass after which the refs are not in block order |
| Overlap.KeptByStep | packages/ui/src/hooks/useIndexer.ts:343-475 | every step keeps: each block holds what the last pass over it left there, and no pass starts below the first |
| Overlap.WokenInOrder | packages/ui/src/hooks/useIndexer.ts:343-347 | the calls that the end of a pass wakes are those that wait for it, in order, each with its own target |
| Overlap.OverlappingPassesSoundIff | packages/ui/src/hooks/useIndexer.ts:343-475 | for every run, with any number of overlapping passes: sound exactly when the last pass to end over each block fetched it, or the block is empty |
| Overlap.WipedForGood | packages/ui/src/hooks/useIndexer.ts:349-355 | no later step of the session brings back what was wiped |
| Overlap.CalmIsSerial | packages/ui/src/hooks/useIndexer.ts:338-342 | head ticks, and forced calls while nothing is in flight or due, never overlap and always leave a sound session |
| Overlap.OverlapLosesARemark | packages/ui/src/hooks/useIndexer.ts:343-475 | a run with one forced call in which two passes overlap and a remark is lost |
| IndexerCache.LocalStorage.ReadCache | packages/ui/src/indexer-cache.ts:77-102 | every kind of miss is nothing, and reading changes no other slot's snapshot |
| IndexerCache.ReadAfterWrite | packages/ui/src/indexer-cache.ts:54-128 | a slot reads what it wrote last, and another slot's write can only make it read nothing |
| IndexerCache.StorageKeyInjective | packages/ui/src/indexer-cache.ts:50-52 | keys name slots when genesis hashes have no colon |
| IndexerCache.StorageKeysClash | packages/ui/src/indexer-cache.ts:50-52 | and may clash otherwise |
| IndexerCache.ReadsOwnSnapshot | packages/ui/src/indexer-cache.ts:54-102 | even then a read gives the slot's own last snapshot or nothing |
| RingIndexer.Indexer.EndPass | packages/api/src/faucet/ring-indexer.service.ts:177-183 | its landed blocks join the index, repeated or not |
| RingIndexer.Indexer.GetRingAt | packages/api/src/faucet/ring-indexer.service.ts:85-97 | the canonical ring of the indexed remarks, or nothing beyond what is scanned |
| RingIndexer.Indexer.GetAnnouncedVoterCount | packages/api/src/faucet/ring-indexer.service.ts:115-132 | the announced signers of the indexed remarks |
| RingIndexer.RunPass | packages/api/src/faucet/ring-indexer.service.ts:175-192 | a pass adds exactly its blocks that do not fail, to an index that may have grown meanwhile; a destroyed service adds nothing |
| RingIndexer.Serve | packages/api/src/faucet/ring-indexer.service.ts:167-201 | any number of overlapping catch-ups: the index holds exactly the blocks that landed, only blocks that failed can be missing, and if none failed every ring it gives out is that of the plain chain |
| RingIndexer.RingAtAgrees | packages/api/src/faucet/ring-indexer.service.ts:85-97 | without failures, the ring at every scanned block is that of the plain chain to any later block |
| RingIndexer.FullyScannedIff | packages/api/src/faucet/ring-indexer.service.ts:99-102 | fully scanned exactly when the lost blocks had no remarks |
| RingIndexer.LostAnnounceChangesRing | packages/api/src/faucet/ring-indexer.service.ts:253-257 | a lost announce whose key no other announce names is missing from the ring |
| Examples.LostBlockExample | packages/api/src/faucet/ring-indexer.service.ts:253-257 | a lost block that changes the ring |
| Faucet.Service.Begin | packages/api/src/faucet/faucet.service.ts:105-192 | when a request is admitted, what it reserves, and what each refusal means |
| Faucet.Service.ProcessDrip | packages/api/src/faucet/faucet.service.ts:105-192 | asking the indexer: an acceptable request is refused only as a duplicate or for the budget, any other one with the error of the first check it fails |
| Faucet.Service.Settle | packages/api/src/faucet/faucet.service.ts:194-211 | success keeps the reservation, failure releases it and nothing else |
| Faucet.Service.RemainingBudget | packages/api/src/faucet/faucet.service.ts:268-285 | the reported remainder |
| Faucet.OneDripEach | packages/api/src/faucet/faucet.service.ts:166-174 | at most one drip in flight or paid for each key image |
| Faucet.HeldForAllSpellings | packages/api/src/faucet/faucet.service.ts:166-174 | a held reservation blocks exactly the requests whose key image has the same bytes, in any letter case |
| Faucet.AskTwice | packages/api/src/faucet/faucet.service.ts:166-174 | of two such requests in a row never both are admitted |
| Faucet.Reserve | packages/api/src/faucet/faucet.service.ts:189-192 | a reservation keeps the books balanced |
| Faucet.RollBack | packages/api/src/faucet/faucet.service.ts:204-206 | a rollback releases only its own reservation |
| Faucet.BudgetIff | packages/api/src/faucet/faucet.service.ts:176-187 | for a positive amount the budget refuses exactly when there are as many reservations as voters |
| Faucet.Serve | packages/api/src/faucet/faucet.service.ts:105-285 | in every reachable state spent is the amount times the used key images, within the budget, and remaining plus spent is constant |
| WasmBoundary.WireRoundTrip | packages/ring-sig/wasm/src/lib.rs:90-121 | a signature survives the hexadecimal boundary |
| WasmBoundary.ThrowsIff | packages/ring-sig/wasm/src/lib.rs:98-129 | verification throws exactly on malformed input |
| WasmBoundary.SignedVerifies | packages/ring-sig/wasm/src/lib.rs:80-129 | what an honest signer sends verifies on the other side |
| WasmBoundary.VerifyJsIff | packages/ring-sig/wasm/src/lib.rs:103-129 | `verify_js` says what `verify` says about the bytes that the texts hold, field by field |
| WasmBoundary.SignJsIff | packages/ring-sig/wasm/src/lib.rs:80-101 | `sign_js` writes what `sign` makes of those bytes |
| EndToEnd.SignedVoteIsValid | packages/shared/src/index.ts:754-845 | a vote signed over the ring at `h` is valid in every log that agrees through `h` |
| EndToEnd.ValidBallotCounts | packages/shared/src/index.ts:847-861 | a valid ballot's key image is counted, and the ballot itself unless an earlier valid one has the image |
| EndToEnd.SignedVoteCounts | packages/shared/src/index.ts:584-870 | both together: sign, land inside the window, be counted |
| WasmBoundary.SameSignerSameImage | packages/ring-sig/vendored/blsag/src/lib.rs:546-556 | whatever a signer signs carries the same key image |
| EndToEnd.OneKeyOneVote | packages/shared/src/index.ts:847-860 | of all votes of one secret key at most one is counted |
| EndToEnd.SignedDripAccepted | packages/api/src/faucet/faucet.service.ts:105-164 | a drip signed over the ring at `h` passes the checks at any later `scannedThrough`, with any verifier that accepts what `verify_js` accepts |
| EndToEnd.CatchingAccepts | packages/api/src/faucet/ring-sig-verifier.ts:28-39 | the faucet's verifier is such a one |
| EndToEnd.BrowserTallyIsAuditors | packages/cli/src/ring-sig.ts:41-47 | a whole browser index gives the auditor's votes and counters; reasons differ only where the verifier threw |
| EndToEnd.VerdictsCaught | packages/cli/src/ring-sig.ts:41-47 | a verifier that catches changes one reason and nothing else |

## Left out

- UiIndexer.Lifetime: passes of one session do not overlap in it; overlapping passes are the subject of Overlap.OverlappingPassesSoundIff.
- Overlap.KeptByStep: writes to the cache, a closing tab and a forced call before the node is connected are not part of this model.
- UiIndexer.Indexer.CatchUp: a closed session takes no further step; a fetch that lands after an abort could still write a chunk, which is whole by UiIndexer.ChunkIsWhole. Starting further passes from the end of a pass, head ticks and thresholds only decide which targets are tried, and any target is allowed.
- UiIndexer.Indexer.OnProgress: the clock is a free choice, so a chunk may be written at any progress report.
- RingIndexer.Serve: the in-flight lock is not modelled, because it does not prevent overlapping catch-ups; any number may be under way.
- Workers.ScanRemarks: the two awaits of one fetch are one step; nothing shared is touched between them. Nobody retries a block, and no claim is made that failing blocks ever succeed.
- Workers.CliScanRemarks: what the other workers do after the first failure has no effect on the result and is not modelled.
- BlsagCompleteness.HonestSignatureVerifies: the random scalars are arguments. Quality of randomness, zeroization, constant time and anonymity are not modelled.
- SmallSuite.SmallIsLawful: the instance is the group of residues modulo 13 with toy hashes, every key hashing to the base point; that the order of ristretto255 (section 4 of RFC 9496) is prime is part of the laws, not proved.
- BallotBound.VotesBoundedByKeys: that no counted vote is forged is a hypothesis about the log; what a forgery would take is the subject of BlsagSoundness.
- DoubleVote.DoubleBallotIff: supposes that no ballot already in the log carries the image of an announced key that is not in its ring.
- Wire.VoteTexts: starts from JSON values; the text parser of the platform is a parameter that reads back the votes it writes. Printing of ring blocks above 2^53 - 1 is not modelled, so votes are sent with safe ring blocks.
- JsonText.VoteCodecIsFaithful: prints ids as the platform does except for control characters, which it does not escape.
- Wire.Utf8ToHex: covers well-formed text; lone surrogates do not occur.
- IndexerCache.ReadsOwnSnapshot: a payload is stored and read as a value; its text form, the time it was saved and clearing by prefix are not modelled.
- Tally.TallyRemarks: detail strings and the display fields of invalid entries are not modelled; nor is the block hash of a remark.
- Faucet.Service.Begin: the transfer is an outcome that comes back later; addresses are a predicate; health checks, throttling and request validation are not modelled.
- The busy banner of the browser, its status and its timers: display only.
- RPC, extrinsics, HTTP, wallets, keystores, environment and command-line parsing: plumbing around an abstract chain.
- Liveness: nothing is said about blocks that fail for ever.
