# XChain indexer: models and proofs

This project models the parts of the XChain indexer whose correctness rests on an argument rather than on one
function's text: the archive recovery tool, the mirror upserts, the canonical encoding and hash chain of the replay
harness, and the scanners, worklists and indexes of its tooling. `dafny verify dfyconfig.toml` checks everything.

| module | what it models |
|---|---|
| `Crc32` | the CRC-32 loop of recovery, against the bit-serial circuit of section 8 of RFC 1952 |
| `Upserts`, `MatchMirror`, `CallMirror`, `PriceMirrors` | the `ON DUPLICATE KEY UPDATE` statements as ordered assignments on one row, and runs of deliveries |
| `Replay`, `TwoCommits`, `Rebuild` | recovery's fold of archived rows, its two commits without a common transaction, and both together |
| `Sums`, `Sets`, `Quorum`, `StakeWeights`, `AcceptedWeights` | the signature quorum, by count and by stake, the weighted completeness check after later slashes, and what it forces on any archive |
| `CanonicalJson`, `JsonReader`, `HashChain` | canonical text, read back by a reader of RFC 8259 texts, chained record hashes, and the first divergence of two chains |
| `CommentStripper`, `LiteralList`, `LiteralRoundTrip`, `NestedCells`, `TableColumns` | the comment-aware reader of literal arrays, its round trips for lists and for columns of rows, and its scanners on nested code |
| `Reachability`, `SupportTests` | the require-graph closure with its deletion verdict, and the walk from changed support files to tests |
| `Shards`, `ShardPool` | dealing test files, checking a dealing, and the bounded worker pool under every interleaving |
| `LedgerSums`, `EscrowJournal`, `TitleMap` | rounded running sums against grouped sums, the journal overlay, the content-addressed title map |

Signatures, hashes, lower-casing and canonical amounts are parameters; nothing is assumed of them beyond what a
contract says. Tables are maps, a stored row is a map from columns to values, and faults are chosen freely. Strings
are sequences of characters.

## What the proofs found

- The comments beside the upserts ask for the fence columns to come last. For the match statement the order matters,
  and exactly one thing is needed: `status` before `effective_time` (`Upserts.MatchOrderSafeIff`). For the call, oracle
  and price statements every order gives the same row (`Upserts.FencedOrderAlwaysSafe`).
- The weighted completeness check adds later slash debits back itself. From the height where the resolver adds them
  too, they are added twice; when the restore query cannot run, the comparison is not skipped but made without them. An
  honest archive is accepted exactly when one of the two adds them back, or the cuts of every resolved source lie within
  the comparison's tolerance (`StakeWeights.HonestAcceptedShippedIff`); `StakeWeights.HonestArchiveRefused` is a ledger
  on which it is refused either way. On the same ledger a misstated archive is accepted instead: 110 for a stake of 100
  when both add them back, 90 when neither does (`AcceptedWeights.ForgedArchiveAccepted`). Acceptance forces the weight at
  the block exactly when one of the two adds the cuts back, or nothing was cut (`AcceptedWeights.AcceptsOnlyTrueIff`), and
  keeps the quorum's denominator exactly when at least one does, or nothing was cut (`AcceptedWeights.DenominatorSafeIff`).
- A source that had enough stake at the block can be left out of an accepted archive when later slashes took it under the
  threshold and the resolver does not add them back (`AcceptedWeights.KeepsQualifiedIff`,
  `AcceptedWeights.QualifiedSourceDropped`).
- Recovery takes a match's timing from its last finalized row and its status from its last row, the live mirror both from
  the last row of the newest version. They agree exactly when these rows do (`MatchMirror.RecoveryParityIff`).
- Weights are compared with the bignumber library's relative tolerance. An eight-decimal amount is mistaken for no other
  exactly when it lies more than one last place below 10000 units (`StakeWeights.ComparedExactlyIff`).
- A retry stages rewards twice when an earlier attempt's reward commit landed and still reported an error
  (`TwoCommits.RetryExactlyOnceIff`, `TwoCommits.LandedRetryStagesTwice`), and a second run of the tool stages them again
  (`Rebuild.RerunStagesAgain`).
- A match row whose generation is null keeps the null when it is delivered once and stores 0 when it is delivered again,
  so redelivery alone can change the mirror (`MatchMirror.RedeliveryConvergesIff`, `MatchMirror.SecondDeliveryStoresZero`).
- A number that overflows to an infinity has the canonical text of null (`CanonicalJson.OverflowReadsAsNull`); without
  one, a text is one value up to key order (`CanonicalJson.CanonicalFiniteIff`).
- Comment stripping keeps offsets, except that a text ending inside a line comment comes out one newline longer
  (`CommentStripper.StripKeepsLengthIff`).
- The bracket matcher and the splitter look only at the character before a closing mark, while the stripper skips
  escaped pairs. A literal that ends in an escaped backslash is closed for the stripper and still open for them
  (`LiteralRoundTrip.LiteralClosesIff`, `LiteralRoundTrip.EscapedBackslashStaysOpen`).
- The partition check does not report a stray file whose name is the empty string (`Shards.NoErrorIff`).
- The comparison of title maps compares titles as sets, so a dropped repetition is not a difference
  (`TitleMap.NoDifferenceIff`).

## Model

| member | source | states |
|---|---|---|
| `Crc32.Crc32Fallback` | bin/recovery.js:1394-1402 | every byte string gets the CRC of the bit-serial full-register circuit, although the loop shifts only the low byte |
| `Crc32.ShiftsSplit` | bin/recovery.js:1397-1399 | shifting the low part alone and folding it into the shifted-down rest equals shifting the whole register |
| `Crc32.PolyTerms` | bin/recovery.js:1395-1398 | the feedback constant has exactly the terms of the generator in section 8 of RFC 1952, and the register starts with all ones |
| `Crc32.ByteFolds` | bin/recovery.js:1396-1400 | one byte step of the code equals eight steps of the circuit |
| `Crc32.ShiftInjective` | bin/recovery.js:1398 | each feedback shift is injective on the register |
| `Crc32.BitStepsInjective` | bin/recovery.js:1395-1401 | feeding fixed bits is injective on the register, so a difference never cancels |
| `Crc32.BitStepsOnto` | bin/recovery.js:1395-1401 | and onto it: every register is what the bits make of some register |
| `Crc32.ByteStepBijective` | bin/recovery.js:1397-1399 | the code's byte step is a bijection: each register has exactly one predecessor |
| `Crc32.BurstChangesRegister` | bin/recovery.js:1395-1401 | streams that differ only inside 32 consecutive bits leave different registers |
| `Crc32.FourByteBurstDetected` | bin/recovery.js:1394-1402 | inputs that differ only inside four consecutive bytes never share a CRC |
| `Upserts.StableIsSimultaneous` | bin/check-migration-old-code-compat.js:169-190 | left-to-right assignment equals simultaneous assignment whenever the gate's verdict survives every prefix |
| `Upserts.MatchOrderSafeIff` | bin/check-migration-old-code-compat.js:173-189 | for any order of the match statement, the two agree on every pair of rows exactly when `status` is assigned before `effective_time` |
| `Upserts.TimeFirstLosesStatus` | bin/check-migration-old-code-compat.js:173-189 | with the two swapped, a newer finalized row leaves an older retracted one retracted |
| `Upserts.FencedOrderAlwaysSafe` | bin/check-migration-old-code-compat.js:196-274 | for the call, oracle and price gates every assignment order gives the simultaneous result |
| `Upserts.MatchUpsertIsSimultaneous` | bin/check-migration-old-code-compat.js:169-190 | the match upsert equals simultaneous assignment on every pair of rows |
| `Upserts.CallUpsertIsSimultaneous` | bin/check-migration-old-code-compat.js:196-215 | the same for the call upsert |
| `Upserts.OracleUpsertIsSimultaneous` | bin/check-migration-old-code-compat.js:261-274 | the same for the oracle upsert |
| `Upserts.PriceUpsertIsSimultaneous` | bin/check-migration-old-code-compat.js:241-253 | the price upsert replaces the row exactly for a finalized delivery, whatever its generation |
| `MatchMirror.DeliveryMoves` | bin/check-migration-old-code-compat.js:169-190 | column by column, on any two rows: the thirteen content columns move together exactly for a later time, or the same time unless that would finalize a row that is not; each generation is the greater of the two, the first stamp stays, nothing else moves |
| `MatchMirror.MirrorKeepsNewest` | bin/check-migration-old-code-compat.js:169-190 | after any run of deliveries the stored content is that of the last delivery with the greatest (effective_time, status rank) |
| `MatchMirror.MirrorFence` | bin/check-migration-old-code-compat.js:185-189 | each push generation is the maximum delivered, null read as 0 |
| `MatchMirror.MirrorAnchor` | bin/check-migration-old-code-compat.js:169-190 | the anchor stamp is the first one delivered |
| `MatchMirror.MirrorKeys` | bin/check-migration-old-code-compat.js:169-190 | the key and the column set never change |
| `MatchMirror.UnambiguousConverges` | bin/check-migration-old-code-compat.js:169-190 | unambiguous deliveries end in one row in every order |
| `MatchMirror.ConvergesIff` | bin/check-migration-old-code-compat.js:169-190 | the final row is the same in every order exactly when equal newest versions carry equal content and at most one stamp occurs |
| `MatchMirror.RedeliveryConvergesIff` | bin/check-migration-old-code-compat.js:169-190 | the final row is the same in every order and for every number of repetitions exactly when, besides, two different rows were delivered or the generations of the only one are numbers |
| `MatchMirror.SecondDeliveryStoresZero` | bin/check-migration-old-code-compat.js:187-188 | one row with a null generation keeps it, the same row delivered twice stores 0 |
| `MatchMirror.RecoveryParityIff` | bin/recovery.js:1014-1053 | over any deliveries recovery and the mirror keep one anchor stamp, and end with the same status, effective time and signatures exactly when the last row has the status of the last newest row and the last finalized row (the first, if none is) has its timing |
| `MatchMirror.RecoveryParity` | bin/recovery.js:1025-1036 | they agree whenever the last row is finalized and none is newer |
| `CallMirror.RunNeverRegresses` | bin/check-migration-old-code-compat.js:196-215 | along any run the generation never falls and a finalized row is never un-finalized |
| `CallMirror.DeliveryMovesContentIff` | bin/check-migration-old-code-compat.js:200-214 | column by column, on any two rows: the twelve content columns move, and the row is finalized, exactly when the delivery is finalized and not below the stored generation; the generation is the greater of the two, nothing else moves |
| `CallMirror.MirrorKeepsTop` | bin/check-migration-old-code-compat.js:196-215 | on finalized rows the mirror keeps the last delivery of the highest generation |
| `CallMirror.RecoveryParityIff` | bin/recovery.js:1165-1235 | on finalized rows recovery's rebuild and the mirror agree exactly when the last row has the content of the last row of the highest generation |
| `CallMirror.RecoveryParity` | bin/recovery.js:1165-1235 | they agree whenever generations never decrease |
| `PriceMirrors.OracleDelivery` | bin/check-migration-old-code-compat.js:261-274 | the eight oracle columns move together exactly when both generations are numbers and the delivered one is not below the stored one; nothing else moves |
| `PriceMirrors.OracleMirrorKeeps` | bin/check-migration-old-code-compat.js:261-274 | after any run each of those columns is that of the last delivery of the greatest generation, or of the first delivery for good if its generation is null |
| `PriceMirrors.PriceDelivery` | bin/check-migration-old-code-compat.js:241-253 | the six price columns and the status move together exactly when the delivery is finalized; nothing else moves |
| `PriceMirrors.PriceMirrorKeeps` | bin/check-migration-old-code-compat.js:241-253 | after any run they are those of the last finalized delivery, or of the first if none is |
| `Replay.ContentForm` | bin/recovery.js:1010-1089 | per key: signed terms of the inserted row, last status, content of the last finalized row if any, whatever was stored before |
| `Replay.StampForm` | bin/recovery.js:1010-1089 | the anchor id is the first one offered, a stored one counting first |
| `Replay.AdmitForm` | bin/recovery.js:984-992 | admission heights come from the last inserted or finalized row that carries any |
| `Replay.ReplayForgetsThePast` | bin/recovery.js:1010-1089 | after a full replay two nodes agree on status, and on content once any row is finalized, whatever earlier runs left |
| `Replay.ReplayIdempotent` | bin/recovery.js:1010-1089 | replaying a key's rows again changes nothing |
| `Replay.PartialThenFullIff` | bin/recovery.js:198-245 | a run over some rows and then a full run gives the row of one clean run exactly when the partial run is resumable |
| `Replay.TableByKey` | bin/recovery.js:1010-1089 | a table replay is the fold of each key's own rows |
| `Replay.TableIdempotent` | bin/recovery.js:1010-1089 | replaying a batch at once changes no row of the table |
| `Replay.TablesConverge` | bin/recovery.js:198-245 | two tables with different pasts agree after one replay on every archived status and all finalized content |
| `TwoCommits.ReplayOrderUnique` | bin/recovery.js:188-205 | ordering by (match_batch_seq, action_index) fixes one replay order for a set of heads, the order a pass replays in |
| `TwoCommits.Handle.Begin` | bin/recovery.js:902-906 | a handle with transactions opens one or throws, a handle without neither; committed state unchanged |
| `TwoCommits.Handle.CommitTransaction` | src/db/database/transaction_queries.js:83-111 | a commit lands, aborts, or lands and throws; the handle is closed in every case |
| `TwoCommits.Handle.SafeRollback` | bin/recovery.js:910-916 | nothing stays open, committed state is kept, a failing rollback only warns |
| `TwoCommits.AnchorRecovery.WriteBatch` | bin/recovery.js:994-1236 | the writes before the failing one are applied in order, mirror rows on one handle and rewards on the other |
| `TwoCommits.AnchorRecovery.Finish` | bin/recovery.js:963-969 | commits mirror first, rewards second; after an error nothing stays open and nothing uncommitted survives |
| `TwoCommits.AnchorRecovery.RebuildBatch` | bin/recovery.js:941-980 | for every schedule of faults the committed state and the verdict are those of `Attempt`, no transaction stays open, and the report grows only on success |
| `TwoCommits.AnchorRecovery.Run` | bin/recovery.js:214-245 | a run over the heads is a pass; each head ends verified or listed as failed |
| `TwoCommits.SuccessIsComplete` | bin/recovery.js:941-980 | reported success means both halves are committed in full |
| `TwoCommits.AttemptForm` | bin/recovery.js:918-980 | on transactional handles each half is all or nothing, and which half lands is given by the faults |
| `TwoCommits.NeverRewardsAlone` | bin/recovery.js:918-980 | no schedule of faults leaves rewards staged without their mirror rows |
| `TwoCommits.RewardsAloneIff` | bin/recovery.js:902-906 | with a transactional mirror that holds exactly when the reward handle is transactional too |
| `TwoCommits.RetryStages` | bin/recovery.js:1095-1162 | over any attempts the rewards are staged once per attempt whose reward commit landed |
| `TwoCommits.RetryMirrors` | bin/recovery.js:941-980 | over any attempts an idempotent mirror holds the batch as one landing leaves it |
| `TwoCommits.RetryExactlyOnceIff` | bin/recovery.js:918-980 | attempts ending in success give the state of one clean attempt exactly when no earlier attempt's reward commit landed |
| `TwoCommits.LandedRetryStagesTwice` | bin/recovery.js:918-980 | for every batch with rewards, a reward commit that lands and throws, and then a clean attempt: the first fails, the second succeeds, the rewards are staged twice |
| `TwoCommits.PassStages` | bin/recovery.js:214-245 | a pass adds the rewards of every batch whose reward commit landed in it |
| `TwoCommits.PassMirrors` | bin/recovery.js:214-245 | a pass that loses no mirror half is one replay of all verified writes |
| `TwoCommits.SecondPass` | bin/recovery.js:214-245 | a second such pass, under any other faults, leaves the mirror alone and stages again every reward that lands in it |
| `Rebuild.MatchesReplayed` | bin/recovery.js:1010-1089 | the match table after any writes is the replay of the match rows among them |
| `Rebuild.CallsReplayed` | bin/recovery.js:1165-1235 | the call table after any writes is the replay of the call rows among them |
| `Rebuild.SnapshotsForm` | bin/recovery.js:1001-1006 | a snapshot key keeps the row it had; one that had none holds the row of the first write that names it, and is absent if none does |
| `Rebuild.MirrorIdempotent` | bin/recovery.js:994-1089 | all mirror writes of a batch are idempotent on the three tables together |
| `Rebuild.RetriedBatch` | bin/recovery.js:918-980 | a batch retried to success is exactly one clean attempt unless a failed attempt's rewards had landed |
| `Rebuild.PassesConverge` | bin/recovery.js:198-245 | two nodes that read the same heads in replay order, with any pasts and any faults that lose no mirror half, agree after a pass on every archived match's status and all finalized timing |
| `Rebuild.CallPassesConverge` | bin/recovery.js:1165-1235 | and on every archived call's status and all finalized content |
| `Rebuild.GreatestHeadDecides` | bin/recovery.js:184-205 | after a pass a match has the status of the last row held of it by the verified head with the greatest (match_batch_seq, action_index), whatever was stored before |
| `Rebuild.GreatestHeadDecidesCall` | bin/recovery.js:184-205 | so does a call |
| `Rebuild.RerunStagesAgain` | src/sql/recovery_pending_rewards.sql:43-62 | running the tool again, under any other faults, changes no mirror row and stages again every reward that lands |
| `Quorum.IndexStakeSources` | src/consensus/stake_weighted_quorum.js:103-127 | first row of a source decides its weight, last row of a key its source; refused on a blank source or a first weight that is no number |
| `Quorum.WellFormedIff` | src/consensus/stake_weighted_quorum.js:103-127 | row by row: a snapshot is refused exactly for a blank source or a source's first row without a number |
| `Quorum.SumStakeWeights` | src/consensus/stake_weighted_quorum.js:130-142 | the total, refused exactly on a negative weight or a total that is not positive |
| `Quorum.SumSignerStake` | src/consensus/stake_weighted_quorum.js:144-160 | the stake of the signers' sources, each source once |
| `Quorum.MeetsStakeThreshold` | src/consensus/stake_weighted_quorum.js:178-199 | accepts exactly when the snapshot is not truncated and the signers' sources hold more than two thirds of the stake |
| `Quorum.CollectSigners` | bin/recovery.js:1369-1384 | the collected keys are exactly the qualified keys with at least one valid signature, each once |
| `Quorum.QuorumVerified` | bin/recovery.js:1369-1388 | by count: more than half of the qualified keys and more than twice floor((n-1)/3) of them signed; by stake: the stake rule on those keys |
| `Quorum.SignersAre` | bin/recovery.js:1369-1384 | a key signs exactly when some entry is a valid signature by it and it is qualified |
| `Quorum.OnlySignersMatter` | bin/recovery.js:1369-1388 | order, repetition and garbage entries change neither verdict, and more signing keys never lose one |
| `Quorum.ThresholdLeast` | bin/recovery.js:1386 | the threshold is the least number that is more than half of n and more than twice floor((n-1)/3) |
| `Quorum.MoreSignersAccept` | src/consensus/stake_weighted_quorum.js:178-199 | the stake rule is monotone in the signers |
| `Quorum.ThresholdReachable` | bin/recovery.js:1385-1387 | the threshold is at most n - floor((n-1)/3) |
| `Quorum.CountQuorumsIntersect` | bin/recovery.js:1369-1388 | any two signature lists accepted by count, for any two rows, share a signing key, and f+1 of them when n = 3f+1 |
| `Quorum.StakeQuorumsIntersect` | src/consensus/stake_weighted_quorum.js:178-199 | any two accepting sets share sources with more than a third of the stake |
| `Quorum.FullSigningAccepts` | src/consensus/stake_weighted_quorum.js:178-199 | all keys signing is accepted when no key serves two sources |
| `StakeWeights.HistoryConserves` | bin/recovery.js:806-857 | through every later history of in-place slashes, current weight plus later debits is the weight at the block |
| `StakeWeights.ArmedIsRestored` | src/db/stakes/effective_set_sql.js:114-225 | burns added back row by row equal the debits the restore query sums |
| `StakeWeights.StakeLifetime` | src/db/stakes/effective_set_sql.js:114-225 | a valid stake counts for its source from its activation block until just before its unstake takes effect |
| `StakeWeights.ArchivedWeights` | bin/recovery.js:762-804 | accepts exactly when every row of a source repeats its first row's weight (row by row: `AcceptedWeights.OneWeightEachIff`) |
| `StakeWeights.ResolvedWeights` | bin/recovery.js:762-804 | accepts exactly when every resolved source is archived |
| `StakeWeights.CompareWeights` | bin/recovery.js:762-804 | accepts exactly when every resolved weight plus its restore compares equal to the archived one |
| `StakeWeights.VerifyWeightedCompleteness` | bin/recovery.js:762-804 | the verdict is the three conditions together |
| `StakeWeights.HonestNotDropped` | bin/recovery.js:762-804 | slashes only lower weights, so the resolved set stays inside an honest archive |
| `StakeWeights.HonestAcceptedIff` | bin/recovery.js:762-857 | an honest archive passes exactly when, for every resolved source, the weight with the later cuts as they were added back (by neither, one or both) lies within the margin of the weight at the block |
| `StakeWeights.HonestAcceptedShippedIff` | bin/recovery.js:762-857 | with the shipped comparison: accepted exactly when one of resolver and restore query adds later cuts back, or the cuts of every resolved source lie within the tolerance |
| `StakeWeights.HonestArchiveRefused` | bin/recovery.js:762-857 | a stake of 100 slashed by 10: its honest archive is refused with both restores, and with neither |
| `StakeWeights.RestoredOnceAccepts` | bin/recovery.js:762-857 | honest archives are never rejected when exactly one of the two adds them back |
| `AcceptedWeights.OneWeightEachIff` | bin/recovery.js:762-804 | the first loop accepts exactly when every row after a source's first compares equal to that first row's weight, the one that is archived for the source |
| `AcceptedWeights.AcceptanceForces` | bin/recovery.js:762-804 | acceptance forces every resolved source to be archived, on each of its rows, at the weight the check compares with: the weight at the block less the later cuts plus what resolver and restore query add back |
| `AcceptedWeights.AcceptsOnlyTrueIff` | bin/recovery.js:762-857 | every accepted archive carries the weight at the block of every resolved source exactly when one of the two adds later cuts back, or no resolved source was cut |
| `AcceptedWeights.ForgedArchiveAccepted` | bin/recovery.js:762-857 | a stake of 100 slashed by 10: 110 is accepted with both restores, 90 with neither |
| `AcceptedWeights.DenominatorHolds` | bin/recovery.js:762-804 | the archived total is at least the total of the weights the check compares with, up to the margins |
| `AcceptedWeights.DenominatorSafeIff` | bin/recovery.js:762-857 | so every accepted total is at least the resolved sources' total at the block, up to the tolerance, exactly when at least one of the two adds later cuts back, or no resolved source was cut |
| `AcceptedWeights.KeepsQualifiedIff` | bin/recovery.js:752-761 | every accepted archive keeps every keyed source that qualified at the block exactly when the resolver is armed or later cuts left each of them at or above the threshold |
| `AcceptedWeights.QualifiedSourceDropped` | bin/recovery.js:752-761 | a stake of 100 slashed by 10 under a threshold of 95: the empty archive is accepted |
| `StakeWeights.DecimalsNearIff` | src/consensus/capability_min_stake_history.js:150-162 | two eight-decimal amounts compare equal exactly when they are, or differ by at most 1e-12 of the larger |
| `StakeWeights.ComparedExactlyIff` | src/consensus/capability_min_stake_history.js:150-162 | an amount compares equal to no other exactly when it lies more than one last place below 10000 units |
| `StakeWeights.LargeAmountsBlur` | src/consensus/capability_min_stake_history.js:150-162 | an instance: 20000.00000000 and 20000.00000001 compare equal |
| `CanonicalJson.SortIsSorted` | bin/verify-list-owner-replay-equivalence.js:157 | the same members, none lost, each key preceding the next by code units: where they first differ it ends or has the smaller unit |
| `CanonicalJson.LtIsPrecedes` | bin/verify-list-owner-replay-equivalence.js:157 | the order compared by is that order of code units |
| `CanonicalJson.EquivalentSameText` | bin/verify-list-owner-replay-equivalence.js:154-160 | values equal up to key order have one text |
| `CanonicalJson.CanonCancels` | bin/verify-list-owner-replay-equivalence.js:154-160 | no canonical text is a prefix of another in context: equal texts followed by anything come from equivalent values |
| `CanonicalJson.CanonicalIff` | bin/verify-list-owner-replay-equivalence.js:154-160 | two JSON values have the same text exactly when they are equal up to object key order, overflowed numbers counting as null |
| `CanonicalJson.CanonicalFiniteIff` | bin/verify-list-owner-replay-equivalence.js:154-160 | without overflowed numbers, exactly when they are equal up to object key order |
| `CanonicalJson.OverflowReadsAsNull` | bin/verify-list-owner-replay-equivalence.js:159 | an overflowed number and null are different values with one text |
| `JsonReader.ReadCanonical` | bin/verify-list-owner-replay-equivalence.js:154-160 | the canonical text, whatever follows it, is read by a JSON reader as the value it was made of, up to key order and with overflowed numbers as null, and with the keys of every object ascending |
| `JsonReader.QuoteRead` | bin/verify-list-owner-replay-equivalence.js:157-159 | a printed string is read back as that string |
| `JsonReader.EscapeShortest` | bin/verify-list-owner-replay-equivalence.js:157-159 | a character is printed as itself unless it is a control, a quote, a backslash or a surrogate, then by its one-letter escape if it has one, else by its number in lower-case digits |
| `JsonReader.PairPrinted` | bin/verify-list-owner-replay-equivalence.js:157-159 | a surrogate pair is printed as itself |
| `JsonReader.NumberUnits` | bin/verify-list-owner-replay-equivalence.js:159 | printed numbers consist of digits, signs, a point and an exponent mark |
| `JsonReader.LoneEscaped` | bin/verify-list-owner-replay-equivalence.js:157-159 | half of one without the other half is printed by its number |
| `HashChain.BuildHashChain` | bin/verify-list-owner-replay-equivalence.js:162-173 | refuses exactly a list with a record without a safe block index, naming the first; otherwise each entry holds the block and the chained digest |
| `HashChain.RecordLinked` | bin/verify-list-owner-replay-equivalence.js:166-171 | a record whose block_index is a printed natural number is accepted exactly when that number is below 2^53 |
| `HashChain.LinkedRecord` | bin/verify-list-owner-replay-equivalence.js:166-171 | and nothing but an object with an all-digit block_index below 2^53 is accepted |
| `HashChain.DigestStarts` | bin/verify-list-owner-replay-equivalence.js:162-173 | the first digest is over 32 zero bytes, a line feed and the record's text, each later one over the one before |
| `HashChain.FirstDivergence` | bin/verify-list-owner-replay-equivalence.js:238-256 | reports the first position that differs in block or compared field, with the first such field, else a length difference, else nothing |
| `HashChain.DigestsAgreeIff` | bin/verify-list-owner-replay-equivalence.js:162-173 | absent collisions, digests agree after n records exactly when the first n texts do |
| `HashChain.DivergenceIsFirstRecord` | bin/verify-list-owner-replay-equivalence.js:238-256 | absent a collision, the reported position is the first record not equivalent to its counterpart, and every later digest differs |
| `HashChain.AgreementIsEqualityOrCollision` | bin/verify-list-owner-replay-equivalence.js:238-256 | silence on lists of one length means equivalent records or a concrete collision at a position |
| `HashChain.EquivalentSameChain` | bin/verify-list-owner-replay-equivalence.js:162-173 | equivalent lists have the same chain |
| `HashChain.CompareCorpus` | bin/verify-list-owner-replay-equivalence.js:281-289 | a plain corpus is refused exactly on a bad or too high block index; otherwise silence is equivalence or a collision, and equivalent sides are silent |
| `CommentStripper.StripComments` | bin/sibling-reference-map.js:557-584 | the loop computes the stripped text |
| `CommentStripper.StripAligned` | bin/sibling-reference-map.js:552-584 | every offset and newline is kept, each other character kept or blanked |
| `CommentStripper.StripKeepsLengthIff` | bin/sibling-reference-map.js:569-573 | the length is kept exactly when the text does not end inside a line comment; a text that does |
| `CommentStripper.StripIdempotent` | bin/sibling-reference-map.js:557-584 | stripping twice is stripping once |
| `CommentStripper.StringSurvives` | bin/sibling-reference-map.js:562-568 | a string literal survives whole, escapes and comment marks inside it included, and what follows is stripped as if it stood alone |
| `CommentStripper.StripSplits` | bin/sibling-reference-map.js:557-584 | text that ends outside quotes and comments is stripped on its own, and so is what follows it |
| `LiteralList.BalancedArrayBody` | bin/sibling-reference-map.js:521-532 | the text up to the matching bracket, quotes respected, or nothing |
| `LiteralList.SplitTopLevel` | bin/sibling-reference-map.js:587-602 | the non-blank cells between top-level commas |
| `LiteralList.ItemsFromArrayBody` | bin/sibling-reference-map.js:539-550 | the literals of the cells, or of one column of the rows, or nothing when there is none |
| `LiteralList.DeclIndexIsFirst` | bin/sibling-reference-map.js:514-516 | the declaration is matched at its first place, and nowhere when it is not found |
| `LiteralRoundTrip.DeclaredShape` | bin/sibling-reference-map.js:514 | whatever matches as a declaration is a keyword, white space, the name, an equals sign and a bracket, white space between |
| `LiteralList.SpacesAre` | bin/sibling-reference-map.js:514-546 | white space is that of ECMAScript, code point by code point |
| `LiteralList.ArrayLiteralItems` | bin/sibling-reference-map.js:509-518 | the composition of the above |
| `LiteralRoundTrip.StripPiece` | bin/sibling-reference-map.js:569-579 | a closed line or block comment becomes blanks and newlines, and what follows is stripped as if it stood alone |
| `LiteralRoundTrip.LiteralClosesIff` | bin/sibling-reference-map.js:521-602 | the scanners close a string literal exactly when its last character is not a backslash |
| `LiteralRoundTrip.EscapedBackslashStaysOpen` | bin/sibling-reference-map.js:521-602 | the literal of one escaped backslash is closed for the stripper and open for the scanners |
| `NestedCells.SplitNested` | bin/sibling-reference-map.js:587-602 | cells of any nested code joined by commas are split apart exactly |
| `NestedCells.BodyOfNested` | bin/sibling-reference-map.js:521-532 | the body of an array of any nested code is exactly that code, whatever follows |
| `NestedCells.StripNodes` | bin/sibling-reference-map.js:557-584 | nested code with comments anywhere is stripped to the same code with those comments blanked |
| `NestedCells.ReadNodes` | bin/sibling-reference-map.js:546-547 | a stripped cell reads as an item exactly when it is one quoted text without marks between white space |
| `TableColumns.ColumnOfRow` | bin/sibling-reference-map.js:543-545 | the asked column of a bracketed row is its cell there, blank cells not counted, or nothing beyond the last one |
| `TableColumns.TupleItems` | bin/sibling-reference-map.js:539-550 | reading one column of an array of rows gives, in order, the items that stand in it, whatever is commented in the array |
| `TableColumns.ColumnRoundTrip` | bin/sibling-reference-map.js:504-550 | a column of a table commented anywhere, in a declaration anywhere in a file, reads back as its items |
| `LiteralRoundTrip.LiteralOf` | bin/sibling-reference-map.js:546-547 | white space, mark, text, same mark, white space reads as the text |
| `LiteralRoundTrip.LiteralShape` | bin/sibling-reference-map.js:546-547 | and nothing else reads as a literal |
| `LiteralRoundTrip.BodyOfCells` | bin/sibling-reference-map.js:521-532 | the matching bracket of a stripped array is its own, whatever brackets and commas its items hold and whatever follows |
| `LiteralRoundTrip.SplitCells` | bin/sibling-reference-map.js:587-602 | the cells of a stripped array are split apart exactly |
| `LiteralRoundTrip.ReadDeclaration` | bin/sibling-reference-map.js:509-518 | a declaration that is the first of its name in a file, after any text that ends outside quotes and comments, is read from its own stripped body |
| `LiteralRoundTrip.RoundTrip` | bin/sibling-reference-map.js:509-602 | any list of items without quote marks and without a final backslash, printed as the first declaration of its name in a file with any comments, holes, quote marks and following text, reads back as that list; without items as null |
| `Reachability.EdgesFrom` | bin/reachability.js:193-227 | the edges are the tracked targets of the first existing candidate of each require, and of the dynamic edges |
| `Reachability.ResolveFirst` | bin/reachability.js:193-227 | a require resolves to a file exactly when it is an existing script among its candidates and none before it is |
| `Reachability.PathKinds` | bin/reachability.js:345-384 | scripts end in .js, tests start with test/, source files with src/ |
| `Reachability.Closure` | bin/reachability.js:249-259 | the worklist ends and returns exactly the files some chain of requires reaches |
| `Reachability.ReverseEdges` | bin/reachability.js:235-246 | the callers of a file are exactly the tracked non-test files that require it |
| `Reachability.Analyse` | bin/reachability.js:345-384 | a file is flagged exactly when it is a source file no closure, sibling, twin or non-test caller holds |
| `Reachability.EdgesKept` | bin/reachability.js:193-227 | a kept file that requires no deleted file keeps its edges, fallback candidates included |
| `Reachability.DeletionKeepsReachIff` | bin/reachability.js:249-259 | deleting tracked files leaves a closure unchanged exactly when it holds none of them |
| `Reachability.FlaggedDeletionIsSafe` | bin/reachability.js:345-384 | deleting any of the flagged files leaves both closures and the edges of every kept non-test file unchanged |
| `SupportTests.AddSupportTests` | bin/ci_fast_select.js:210-235 | the walk ends; it selects exactly the existing owned tests named by reached files that do not widen, defers the unowned ones, and widens exactly when some reached file has no user or an outside one |
| `Shards.DealShards` | bin/ci_shard.js:73-77 | each shard holds the files of its turn, in order |
| `Shards.ShardTotalIs` | bin/ci_shard.js:74 | there are as many shards as asked for, but no more than files, and at least one |
| `Shards.NoShardEmpty` | bin/ci_shard.js:75 | the k-th shard opens with the k-th file, so none is empty while there are as many files as shards |
| `Shards.DealPartitions` | bin/ci_shard.js:73-77 | the shards together hold every file as often as the list |
| `Shards.DealBalanced` | bin/ci_shard.js:73-77 | shard sizes differ by at most one |
| `Shards.NoErrorIff` | bin/ci_shard.js:80-87 | no error is reported exactly on an exact partition of a duplicate-free list, or a hidden stray empty name |
| `Shards.ErrorMeans` | bin/ci_shard.js:80-87 | what each reported error says is so |
| `Shards.HiddenStrayExample` | bin/ci_shard.js:86-87 | such a hidden stray exists |
| `Shards.DealPassesIff` | bin/ci_shard.js:73-87 | the dealing passes its own check exactly when the list is duplicate-free |
| `ShardPool.StepTracked` | bin/ci_shard.js:143-160 | every step keeps: a started shard runs under one worker or is closed, the others are untouched |
| `ShardPool.StepCounted` | bin/ci_shard.js:143-160 | every step keeps the counters, the order of starts, and that workers finish only when no shard is left |
| `ShardPool.PoolIsBounded` | bin/ci_shard.js:136-176 | in every state of every run no more shards run than there are shards, nor, but for one, than jobs were asked for, and none was started twice |
| `ShardPool.BoundReached` | bin/ci_shard.js:166-168 | and every number of shards within that bound does run at once in some run |
| `ShardPool.NoDeadlock` | bin/ci_shard.js:154-160 | until all workers are finished something can happen |
| `ShardPool.EveryRunEnds` | bin/ci_shard.js:136-176 | every run is bounded; a complete one started and closed each shard once, and its result is true exactly when no shard failed |
| `ShardPool.EveryFileRuns` | bin/ci_shard.js:136-176 | in every complete run each file is given to a process exactly as often as it is listed |
| `LedgerSums.RoundedAddExactIff` | src/utility/bcmath.js:106-111 | rounding after an addition equals rounding the addend exactly unless the addend is a tie and the sum has the other sign |
| `LedgerSums.RunningIsSum` | bin/compare_credit_debit_sum.js:66-84 | on non-negative amounts of any precision the running rounded sum is the sum of the rounded amounts |
| `LedgerSums.NegativeAmountsDiffer` | bin/compare_credit_debit_sum.js:66-84 | with a negative amount the two can differ |
| `LedgerSums.FoldInJs` | bin/compare_credit_debit_sum.js:66-84 | the map holds, for exactly the keys that appear, the running sum of each side |
| `LedgerSums.SumInSql` | bin/compare_credit_debit_sum.js:87-110 | the map holds, for exactly the grouped keys, the total of each side |
| `LedgerSums.FoldIsGrouped` | bin/compare_credit_debit_sum.js:66-110 | on non-negative rows the two maps are equal |
| `LedgerSums.OrderIrrelevant` | bin/compare_credit_debit_sum.js:87-110 | the total of a key does not depend on the row order |
| `LedgerSums.KeysDistinct` | bin/compare_credit_debit_sum.js:53 | joined keys are distinct when addresses hold no tab |
| `LedgerSums.KeysArePairs` | bin/compare_credit_debit_sum.js:53-84 | without tabs in addresses, what is summed under a joined key are the amounts of its address and tick, in order |
| `LedgerSums.DiffMaps` | bin/compare_credit_debit_sum.js:113-128 | reports exactly the keys whose entries differ, absent read as zero; empty exactly when there is none |
| `LedgerSums.Compare` | bin/compare_credit_debit_sum.js:130-135 | silent on every ledger of non-negative amounts, and silence means the totals agree on every key |
| `EscrowJournal.JournalOverlay.Learn` | bin/shadow-dryrun-escrow-leaf.js:135-139 | names read from the index tables are added to the known ones; rows and ids stay |
| `EscrowJournal.JournalOverlay.Insert` | bin/shadow-dryrun-escrow-leaf.js:93-101 | appends the batch with ascending ids and the names known so far (row by row: `EscrowJournal.StampedAt`) |
| `EscrowJournal.StampedAt` | bin/shadow-dryrun-escrow-leaf.js:93-101 | each append becomes one row, numbered on, with its own ids, amount and block, and the names known for its ids or none |
| `EscrowJournal.LatestIsLastAppend` | bin/shadow-dryrun-escrow-leaf.js:93-131 | after any appends to any journal, the reads of a pair by its names and by its ids give the amount of its last append, a tombstone included; as of a height, of its last append at or below it |
| `EscrowJournal.OthersUnread` | bin/shadow-dryrun-escrow-leaf.js:104-131 | rows of other pairs leave the reads of a pair as they were |
| `EscrowJournal.UnknownAddressCollides` | bin/shadow-dryrun-escrow-leaf.js:148-155 | a row whose address was never looked up shares its live key with an address named "undefined" |
| `EscrowJournal.JournalOverlay.Reset` | bin/shadow-dryrun-escrow-leaf.js:144 | no rows, ids from one again, names kept |
| `EscrowJournal.JournalOverlay.Latest` | bin/shadow-dryrun-escrow-leaf.js:104-112 | the amount of the last row of a pair of names, among the rows up to a height if one is given |
| `EscrowJournal.JournalOverlay.LatestAsked` | bin/shadow-dryrun-escrow-leaf.js:119-131 | the last rows of exactly the id pairs both of whose ids are asked for |
| `EscrowJournal.LiveSet` | bin/shadow-dryrun-escrow-leaf.js:148-158 | the keys whose last row is no tombstone, with its amount |
| `EscrowJournal.UpToIsPrefix` | bin/shadow-dryrun-escrow-leaf.js:104-112 | in a block-ordered journal the rows up to a height are its first rows |
| `EscrowJournal.ReadsAgree` | bin/shadow-dryrun-escrow-leaf.js:80-158 | with ids and names in bijection, the named read, the read by ids and the live set all show the last entry of one history per key |
| `EscrowJournal.AsOfIsLive` | bin/shadow-dryrun-escrow-leaf.js:104-158 | the read as of a height is the live set of the rows up to it, which keep the order the live set asks for |
| `EscrowJournal.Mismatches` | bin/shadow-dryrun-escrow-leaf.js:176-184 | lists exactly the missing, divergent and extra keys; empty exactly when the keys are the same and amounts canonically equal |
| `TitleMap.GatherSets` | bin/suite-title-map.js:317-326 | succeeds exactly when the referenced sets exist and do not collide |
| `TitleMap.MergeScriptMap` | bin/suite-title-map.js:286-326 | merges exactly when the script is fresh, the map is current and no referenced set is missing or collides; the stored sets are exactly the referenced ones |
| `TitleMap.RefreshedExpands` | bin/suite-title-map.js:277-326 | the refreshed script expands to the fresh titles |
| `TitleMap.OthersUnchanged` | bin/suite-title-map.js:277-326 | every other script expands as before |
| `TitleMap.MergeShows` | bin/suite-title-map.js:277-326 | in the stored sets: after a merge a file of the refreshed script shows its fresh titles, any other its old ones |
| `TitleMap.MergeWellFormed` | bin/suite-title-map.js:310-326 | the merged map can be refreshed again |
| `TitleMap.CompareScript` | bin/suite-title-map.js:341-364 | the differences of one script, in the reported order and as often as they stand |
| `TitleMap.ScriptDiffsAre` | bin/suite-title-map.js:341-364 | a difference is reported exactly when it holds |
| `TitleMap.Compare` | bin/suite-title-map.js:333-366 | over all scripts of either map, or the one asked for, one script after the other in order, exactly the differences that hold |
| `TitleMap.NoDifferenceIff` | bin/suite-title-map.js:356-364 | none exactly when the files are the same and each has the same titles as a set |
| `TitleMap.TitlesReportedIff` | bin/suite-title-map.js:341-364 | in the stored sets, without renames: a title is reported dropped exactly when the pin shows it for a file and the tree shows that file without it, and added the other way round |
| `TitleMap.MovedFile` | bin/suite-title-map.js:354-355 | without a clash a pinned file is compared under its declared new name, and under its own when none or an empty one is declared |
| `TitleMap.PureMoveIsSilent` | bin/suite-title-map.js:328-364 | a declared move without clashes that changes no title reports nothing |
| `TitleMap.MergedIsSilent` | bin/suite-title-map.js:286-364 | the merged map compared with the fresh one on an error-free refreshed script reports nothing |

## Left out

- Database connections, SQL execution and collation, process spawning, git, file walking, argument parsing and printing.
- Signature, SHA-256, gzip and base64 internals: signatures are a predicate, the hash is a function with 32-unit digests.
- Recovery of bridge transfers, policies, list shares and checkpoint prices, archive chunk coverage, and the dry run.
- Reward amounts: pinning them from the archive and the chain is not modelled, a reward is a row.
- Plain inserts that clash on another unique key than the one modelled.
- `resolvedHashChain` and the pinned history capture: field checks without a chain.
- The row formats of `verify-*` harnesses other than the list-owner one, and timing statistics.
- `shardCount` and `shardJobs`: a few minima; the pool is proved for every count and every job limit.
- The journal's distinct-pairs-of-a-block read and the reader's live set by ids: one filter each.
- Refusing an output file that is no title map: a type check.
- The choice of consensus prefixes and source-to-test name matches in the fast selector: pattern tables.
- LiteralList.ArrayLiteralItems: names are plain identifiers, without characters special to a regular expression.
- CommentStripper.StripComments: characters are Unicode scalars, not UTF-16 units; only ASCII characters decide anything.
- CanonicalJson.CanonicalIff: a finite number is its printed text, and values JSON cannot hold (undefined, functions) are not modelled.
- HashChain.BuildHashChain: a text stands for its UTF-8 bytes, and digests stay binary, not hexadecimal.
- TwoCommits.AnchorRecovery.RebuildBatch: the report is a count of written rows, and a handle's own error texts are not modelled.
- Quorum.QuorumVerified: a source is blank when it holds only spaces, tabs and line breaks.
- TwoCommits.Handle.CommitTransaction: releasing a connection never throws here; in the code a release that throws leaves the connection and its lock held, and the next begin waits.
- TwoCommits.Handle.SafeRollback: the same holds of its release.
- TwoCommits.AnchorRecovery.WriteBatch: one archived row is one write; the code issues a select, an insert or update and an admission update, and on a handle without transactions a fault between them leaves half a row. On transactional handles no state inside a batch is visible.
- StakeWeights.HistoryConserves: debits on rows in cooldown are not modelled, and amounts are exact reals, so the 64-digit precision of the bignumber library is not.
- LedgerSums.FoldInJs: amounts are exact, so sums beyond the 64 significant digits of the bignumber library are not modelled.
- LedgerSums.SumInSql: groups are given by joined key; grouping by ids is the same when addresses hold no tab.
- Reachability.EdgesFrom: the candidate paths of a require and the targets of a dynamic edge are given, path arithmetic is not modelled.
- Reachability.Analyse: which files siblings reference or twin is given as one set.
- ShardPool.EveryRunEnds: a process that cannot be spawned, or never closes, is not modelled.
