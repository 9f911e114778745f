# A verified model of a Zcash wallet core

This project models the parts of a Zcash light-wallet library that have to be right for money to arrive: the
note commitment tree and its witnesses, transaction building and fees, the activation schedule and expiry cap,
signing and finalisation, trial decryption, the block search and batched fetching, and the date and range
arithmetic of the command line. Hashes, signatures, note decryption and HASH160 are parameters with stated
contracts; everything else is the logic itself.

`dafny verify dfyconfig.toml` checks the whole project.

## How it is organised

| file | what it models |
|---|---|
| `MerkleTree.dfy` | the dense tree padded with empty leaves (sections 3.8 and 4.9 of the Zcash Protocol Specification): the one specification every tree algorithm below is compared with |
| `ShardRoot.dfy`, `Frontier.dfy` | `compute_shard_root`; the incremental tree, its right edge, and the anchor and leaf count read from it |
| `SparseTree.dfy`, `Witness.dfy`, `WitnessProofs.dfy` | a tree of unknown, summarised and expanded parts; `build_witnesses` step by step; what it guarantees |
| `Decimal.dfy`, `Calendar.dfy`, `Chunks.dfy`, `DerivationPath.dfy` | printing and parsing of dates and paths; splitting a block range |
| `Network.dfy`, `Lifecycle.dfy` | upgrade schedules, the next activation, the expiry cap, circuit generations |
| `Fees.dfy`, `Craft.dfy`, `CraftOutputs.dfy`, `CraftSuccess.dfy`, `ParsedPczt.dfy`, `TransactionFee.dfy` | both builders (one model, the shielded pool is a parameter), whom they pay, when they succeed, what a device reads of their result, and the fee recomputed from it |
| `Der.dfy`, `Signing.dfy` | DER signatures as a device returns them; signers and finalisation |
| `TrialDecrypt.dfy`, `BlockSearch.dfy`, `Details.dfy` | batched decryption, interpolation search, eight concurrent fetches |

Code that updates variables or an object in place is a method or a class, proved against a function that says
what it computes; the main results are lemmas about those functions. The depth of the tree and the height of a
shard (32 and 16 in the code) are any numbers here. Collision-freeness of the hash is a hypothesis only of the
lemmas that need it (`SuccessIffNotesInTree`, `RunsCannotDisagree`, `NoWrongWitness`).

## Where the code and its documentation differ

The model follows the code. These differences are stated as lemmas:

- `cmd_sync` announces 1 chunk for an empty range, `build_chunks` returns none
  (`Chunks.AnnouncedCountIsRealIffNonEmpty`).
- `build_chunks` leaves 32 bits exactly when the last chunk's start plus the chunk size does, which depends on
  more than the end of the range (`Chunks.BuildChunks`).
- A date after 2106-02-07 is accepted, wraps around 32 bits and names another day
  (`Calendar.DateFormatsBackIffInU32`).
- `find_block_height` never returns less than 1,687,104, although it documents a clamp to 1
  (`BlockSearch.SearchFindsCrossing`). With several blocks at the searched timestamp it may miss the latest one;
  `BlockSearch.TiedTimestampMissesLatest` is a chain on which it does, `BlockSearch.LatestIffProbeNotTied` says
  exactly when.
- The error of `to_local_network` for an upgrade whose predecessor is unscheduled is unreachable, because the
  canonical heights leave only the last upgrade open (`Network.GapErrorIsUnreachable`).
- `build_witnesses` never returns its missing-checkpoint error (`WitnessProofs.EveryPathIsChecked`).

## Model

| member | source | states |
|---|---|---|
| `MerkleTree.Hasher.TruePathReachesRoot` | crates/zcash-crypto/src/tree.rs:150-174 | the siblings of a node in the dense tree, folded by a path's root computation, give the root: validity of every honest path |
| `MerkleTree.Hasher.PathRootIsBinding` | crates/zcash-crypto/src/tree.rs:165-174 | under collision-free hashing a fixed-length path to a root determines the leaf and every sibling |
| `ShardRoot.CombinePairs` | crates/zcash-crypto/src/tree.rs:289-293 | one round of the in-place reduction, all pairs in bounds |
| `ShardRoot.ComputeShardRoot` | crates/zcash-crypto/src/tree.rs:266-298 | the level-by-level reduction equals the recursive Merkle root for any height; a wrong size is reported first, then the first invalid leaf |
| `ShardRoot.ShardRootIsIndexFree` | crates/zcash-crypto/src/tree.rs:243-252 | the root of a completed shard is that node of the whole tree, wherever the shard lies |
| `ShardRoot.EmptyShardRoot` | crates/zcash-crypto/src/tree.rs:248-252 | a shard of empty leaves has the recursive empty root |
| `Frontier.AppendAllRepresents` | crates/zcash-crypto/src/tree.rs:184-202 | for every number of leaves up to capacity, the incremental tree holds exactly the right edge of the dense tree |
| `Frontier.FrontierOfLeaves` | crates/zcash-crypto/src/tree.rs:189-233 | the converted frontier's position, emptiness and root are those of the appended leaves |
| `Frontier.FrontierReadersAgreeWithDenseTree` | crates/zcash-crypto/src/tree.rs:204-233 | the leaf count read is the number appended and the anchor is the dense padded root, the empty byte string included |
| `Frontier.DecodedFrontierHasRoot` | crates/zcash-crypto/src/tree.rs:211-233 | for any decodable bytes, honest or not, the climb never runs out of ommers: decoding is the only way to fail |
| `Frontier.ReadersFailIff` | crates/zcash-crypto/src/tree.rs:189-233 | both readers fail exactly when decoding does and with its error; empty bytes never fail |
| `Witness.Assembly.BuildWitnesses` | crates/zcash-crypto/src/tree.rs:65-182 | the imperative assembly returns what `Outcome` defines: all steps, errors and their order |
| `Witness.Assembly.InsertAllCaps` | crates/zcash-crypto/src/tree.rs:72-86 | the loop over shard roots, each decoded before it is inserted into cap and shard store |
| `Witness.Assembly.InsertAllShards` | crates/zcash-crypto/src/tree.rs:114-140 | the loop over shards with every leaf decoded before the batch goes in |
| `Witness.Assembly.CollectPaths` | crates/zcash-crypto/src/tree.rs:150-175 | the loop that pushes one checked path per note |
| `WitnessProofs.AssemblyMatchesDenseTree` | crates/zcash-crypto/src/tree.rs:65-182 | with true shard roots, the true frontier and all leaves of the notes' shards the call succeeds, its anchor is the dense padded root and path i is the authentication path of note i |
| `WitnessProofs.SuccessIffNotesInTree` | crates/zcash-crypto/src/tree.rs:150-175 | with honest server data the call succeeds if and only if every note's commitment is the leaf at its position |
| `WitnessProofs.FrontierAnchorAgrees` | crates/zcash-crypto/src/tree.rs:216-233 | `frontier_anchor` and `build_witnesses` agree on the anchor, and the leaf count is that of the tree |
| `WitnessProofs.EveryPathIsChecked` | crates/zcash-crypto/src/tree.rs:72-181 | whatever the inputs, success means one full-length path per note, in order, that re-roots the note's commitment to the anchor; a refusal names an entry that really is invalid, or the anchor and another root a path leads to; the missing-checkpoint error never occurs |
| `WitnessProofs.RunsCannotDisagree` | crates/zcash-crypto/src/tree.rs:150-181 | two successful runs to one anchor, on any inputs, give the same commitment and path at one position |
| `WitnessProofs.NoWrongWitness` | crates/zcash-crypto/src/tree.rs:98-112 | with any, even wrong, server data: if the anchor is the true root, every path is the true path and every commitment the leaf there |
| `WitnessProofs.CapOrderIsIrrelevant` | crates/zcash-crypto/src/tree.rs:72-86 | neither order nor repetition of cap roots changes the result, for any other inputs |
| `WitnessProofs.CapsAcceptedIff` | crates/zcash-crypto/src/tree.rs:72-86 | shard roots are accepted if and only if each decodes, each shard is in the tree and no two entries give one shard different roots |
| `Calendar.CivilIsDateAfter` | crates/zcash-cli/src/main.rs:724-733 | for every day number the closed form is the date reached by stepping day by day from 1970-01-01 under the Gregorian leap rule; no unsigned subtraction goes below zero |
| `Calendar.FormatIsCalendarTime` | crates/zcash-cli/src/main.rs:712-736 | the printed time is that of the date and of the exact hour, minute and second of the day |
| `Calendar.FormatReadsAs` | crates/zcash-cli/src/main.rs:712-736 | for every 32-bit timestamp: 20 characters, each separator at its position, the digits of the date those of the date stepped to, and hours, minutes and seconds that add up to the seconds since midnight |
| `Calendar.DateAfterReaches` | crates/zcash-cli/src/main.rs:293-296 | counting the days up to a date and stepping that many days are inverse |
| `Calendar.FormatParsesBack` | crates/zcash-cli/src/main.rs:277-301 | for every 32-bit timestamp the printed date parses to the start of its day |
| `Calendar.DateFormatsBackIffInU32` | crates/zcash-cli/src/main.rs:277-301 | a parsed date formats back to itself at midnight if and only if it is not after 2106-02-07 |
| `Calendar.IsoDateParses` | crates/zcash-cli/src/main.rs:283-297 | every valid date from 1970 to 9999 parses to its midnight, cast to 32 bits |
| `Calendar.TimestampParses` | crates/zcash-cli/src/main.rs:277-281 | digits worth a 32-bit number parse to that number, also behind a plus sign; larger numbers are refused |
| `Calendar.DashedFieldsAcceptedIff` | crates/zcash-cli/src/main.rs:283-298 | three dashed numbers are accepted if and only if they form a calendar date from 1970 to 9999, and give its midnight cast to 32 bits |
| `Calendar.ParseRefusalIsTrue` | crates/zcash-cli/src/main.rs:277-301 | for every input, the reason given for a refusal holds of it |
| `Chunks.BuildChunks` | crates/zcash-cli/src/main.rs:741-755 | the loop partitions the range into consecutive chunks, all but the last full; nothing for an empty range; it leaves 32 bits exactly when the last chunk's start plus the chunk size does |
| `Chunks.EachBlockInOneChunk` | crates/zcash-cli/src/main.rs:738-755 | a block is in the range if and only if it is in a chunk, and it is in one only |
| `Chunks.RoomAboveEndIsEnough` | crates/zcash-cli/src/main.rs:741-755 | an end plus chunk size within 32 bits is enough for the whole loop |
| `Chunks.AnnouncedCountIsRealIffNonEmpty` | crates/zcash-cli/src/main.rs:352-353 | the announced chunk count is the real one if and only if the range is not empty; for an empty range it is 1 against 0 |
| `DerivationPath.PathParsesBack` | crates/zcash-crypto/src/parse.rs:503-516 | every path of 32-bit indices reads back to the same hardened and non-hardened indices |
| `DerivationPath.PathsPrintApart` | crates/zcash-crypto/src/parse.rs:503-516 | printing is injective |
| `DerivationPath.IndexIsCanonical` | crates/zcash-crypto/src/parse.rs:503-516 | an index is printed in decimal without leading zeros, with a quote exactly when it is hardened |
| `Network.WalkIsExhaustive` | crates/zcash-crypto/src/craft.rs:150-170 | the activation walk visits every upgrade, each after its predecessor |
| `Network.NextActivationHeight` | crates/zcash-crypto/src/craft.rs:174-186 | the loop over upgrades computes the next activation |
| `Network.NextActivationIsLowestAhead` | crates/zcash-crypto/src/craft.rs:172-186 | it is the lowest scheduled height above the target, on any schedule, ordered or not |
| `Network.BranchIsLastActive` | crates/zcash-crypto/src/craft.rs:440-445 | a branch id is in force exactly while its upgrade is the last active one |
| `Network.AcceptedIffOrdered` | crates/zcash-crypto/src/network.rs:151-207 | overrides are accepted if and only if none is 0 and the whole schedule is ordered and gap-free, although only adjacent pairs are compared |
| `Network.GapErrorIsUnreachable` | crates/zcash-crypto/src/network.rs:151-207 | a refusal names an upgrade overridden with 0 or below its direct predecessor; the predecessor-unscheduled error cannot occur |
| `Network.ResolvedNetworkHonoursOverrides` | crates/zcash-crypto/src/network.rs:241-268 | each name gives its own network, no name the test network; overrides are applied or refused, never dropped; named networks keep their heights; every resolved regtest schedule is ordered |
| `Network.ResolvesIff` | crates/zcash-crypto/src/network.rs:241-268 | a network is resolved exactly for a known name, with overrides only for regtest and only acceptable ones; a refusal names its true cause |
| `Network.CanonicalRegtestBranches` | crates/zcash-crypto/src/network.rs:101-116 | regtest without overrides is in no branch at 0, in Canopy at 1 and in NU6.3 from 2 on |
| `Lifecycle.CapIsExact` | crates/zcash-crypto/src/craft.rs:205-226 | a non-expiring transaction stays so; otherwise the cap is accepted exactly when both expiry and activation leave 8 blocks, and is the lower of expiry and activation - 1; a refusal names target, activation and capped expiry |
| `Lifecycle.OneBranchUntilExpiry` | crates/zcash-crypto/src/craft.rs:188-226 | every height from target to capped expiry has the same active upgrades and the same branch id |
| `Lifecycle.CapIsTight` | crates/zcash-crypto/src/craft.rs:195-226 | one block past a lowered expiry the active upgrades have changed |
| `Lifecycle.GatedBuildsVerify` | crates/zcash-crypto/src/finalize.rs:101-110 | for both pools, on any network, past the activation gate the proving circuit is the one finalisation selects from the recorded branch id |
| `Lifecycle.VerifierChoosesNewIff` | crates/zcash-crypto/src/finalize.rs:98-110 | the verifier uses the newer key if and only if the id decodes to NU6.3 or NU7; an unrecognised id gets the older one |
| `Lifecycle.IronwoodAgreesIffUpgraded` | crates/zcash-crypto/src/craft.rs:1338-1341 | the fixed Ironwood key is the verifier's choice if and only if NU6.3 or NU7 is active: the gate is needed |
| `Lifecycle.CircuitHoldsUntilExpiry` | crates/zcash-crypto/src/circuit.rs:22-28 | the circuit a transaction is proved with is that of every height it can be mined at |
| `Fees.FeePaysForFewestActions` | crates/zcash-crypto/src/craft.rs:1162-1193 | the formula charges for the fewest actions that hold every spend and output: the grace ones, a bundle never of one action, and one transparent input and output on each of the rest |
| `Fees.ChangeCostsAtMostOneAction` | crates/zcash-crypto/src/craft.rs:1174-1193 | a change output never lowers the fee and adds at most one marginal fee (section "Fee calculation" of ZIP 317) |
| `Fees.AcceptsIff` | crates/zcash-crypto/src/craft.rs:581-671 | with surplus S, a fee f is accepted if and only if f = S = fee without change, or f = fee with change and f < S |
| `Fees.AcceptedFeeIsUnique` | crates/zcash-crypto/src/craft.rs:581-671 | at one marginal fee at most one fee is accepted |
| `Fees.SomeFeeIsAcceptedIff` | crates/zcash-crypto/src/craft.rs:581-671 | some fee is accepted if and only if the surplus is the fee without change or exceeds the fee with it; in the gap between there is none |
| `Fees.CallerFeeAcceptedIff` | crates/zcash-crypto/src/craft.rs:1129-1147 | both marginal fees together: the standard one of the height, and the legacy one where the standard is lower |
| `Fees.LowerFeeRefusedBeforeSwitch` | crates/zcash-crypto/src/craft.rs:1089-1147 | 1000 zatoshis an action is refused exactly on the main network before height 3,590,000; 5000 an action never is |
| `Craft.BuildTransaction` | crates/zcash-crypto/src/craft.rs:460-768 | the imperative builder returns what `Build` defines: every check, its order and the stamped result |
| `Craft.SumSpends` | crates/zcash-crypto/src/craft.rs:545-557 | the running total of spends with checked addition |
| `Craft.SumInputs` | crates/zcash-crypto/src/craft.rs:559-565 | the same for transparent inputs, on top of the spends |
| `Craft.SumOutputs` | crates/zcash-crypto/src/craft.rs:567-579 | totals and counts per kind of output |
| `Craft.StampTransparentDerivations` | crates/zcash-crypto/src/craft.rs:883-940 | all paths are computed before any entry is updated; then each input and the change output by index |
| `Craft.BuildConservesValue` | crates/zcash-crypto/src/craft.rs:1430-1476 | every successful build of either kind conserves value without wrap-around, in its totals and in the outputs it assembles |
| `Craft.EachInputHasOneDerivation` | crates/zcash-crypto/src/craft.rs:855-920 | each transparent input carries exactly its own pubkey at its own path, which prints and reads back |
| `Craft.OnlyChangeOutputIsStamped` | crates/zcash-crypto/src/craft.rs:604-652 | transparent change exists if and only if change is left and nothing shielded is spent; it is the last transparent output and the only one stamped |
| `CraftOutputs.EachRequestIsPaid` | crates/zcash-crypto/src/craft.rs:567-579 | in every successful build request j, transparent or shielded, has an output of exactly its address and value, at the position given by the number of requests of its kind before it |
| `CraftOutputs.OnlyChangeIsAdded` | crates/zcash-crypto/src/craft.rs:596-652 | besides the requests there is only the change; shielded change goes to the caller's change address |
| `CraftOutputs.BuildIsCapped` | crates/zcash-crypto/src/craft.rs:687-724 | the expiry is the proposed one as capped, and branch and circuit are those of the target |
| `Craft.BuildKeepsToItsBranch` | crates/zcash-crypto/src/craft.rs:687-724 | a built transaction stays in one branch, with the circuit it was proved with, until its expiry |
| `CraftSuccess.BuildSucceedsIff` | crates/zcash-crypto/src/craft.rs:460-768 | a build succeeds if and only if the pool's upgrade, the presence of inputs, outputs, bundle, anchor and key, every item, the totals, the fee, the change details, the expiry and the derivation indices are all right, each condition spelled out |
| `CraftSuccess.RefusalIsTrue` | crates/zcash-crypto/src/craft.rs:460-768 | each of the 21 refusals of a build is given only when what it says holds, and a rejected item is named by its own index |
| `CraftSuccess.PlanSucceedsIff` | crates/zcash-crypto/src/craft.rs:581-685 | change derivation and fee validation together succeed exactly on fees acceptable for the layout their own change completes |
| `ParsedPczt.InputIsReadIff` | crates/zcash-crypto/src/parse.rs:278-327 | an input's derivation is read if and only if it is the only one |
| `ParsedPczt.SingleDerivationIff` | crates/zcash-crypto/src/parse.rs:307-327 | none, the only one with its key and path, or a refusal with the number of entries |
| `ParsedPczt.BuiltInputsAreRead` | crates/zcash-crypto/src/parse.rs:278-327 | every input of every successful build is accepted by the parser with its own key and a path that reads back |
| `ParsedPczt.BuiltOutputsAreRead` | crates/zcash-crypto/src/parse.rs:297-327 | the device recognises the change output and no other |
| `TransactionFee.DisplayTxidShows` | crates/zcash-crypto/src/fee.rs:66-71 | the displayed id is the one text of 64 lower-case hex digits that shows the bytes from last to first, high digit first |
| `TransactionFee.DisplayTxidIsInjective` | crates/zcash-crypto/src/fee.rs:66-71 | two transactions are never keyed alike |
| `TransactionFee.ReportedFeeIsTheCallersFee` | crates/zcash-crypto/src/fee.rs:38-64 | on any successful build a reported fee is the caller's fee and every previous output was supplied: never a wrong figure, whatever the zero-value padding |
| `TransactionFee.FeeIsFoundIffSupplied` | crates/zcash-crypto/src/fee.rs:29-64 | within the money supply the fee is found if and only if every previous output is supplied, and is unknown otherwise |
| `TransactionFee.FeeRoundTrip` | crates/zcash-crypto/src/fee.rs:21-71 | building and then asking for the fee returns the caller's fee, for any map that holds each spent output's value under the id explorers show |
| `TransactionFee.PrevoutsOfAreTruthful` | crates/zcash-crypto/src/fee.rs:21-23 | filling a map output by output gives such a map, as no output is spent twice |
| `TransactionFee.FeeRefusalIsTrue` | crates/zcash-crypto/src/fee.rs:51-63 | a fee computation fails only on amounts that are out of range |
| `Der.EncodeDer` | crates/zcash-crypto/src/finalize.rs:457-467 | the encoding of any r, s below 2^256 has a single length byte and at most 70 bytes of content |
| `Der.ParseTransparentDer` | crates/zcash-crypto/src/finalize.rs:433-481 | the rewriting and truncating parser returns what `ParsedDer` defines |
| `Der.DerIsUnique` | crates/zcash-crypto/src/finalize.rs:479-480 | decoding inverts encoding and accepts nothing but encodings (sections 8.3, 8.9 and 10.1 of ITU-T X.690) |
| `Der.NormalisedIffFromDevice` | crates/zcash-crypto/src/finalize.rs:441-477 | normalisation yields an encoding from exactly the four shapes a device sends it in |
| `Der.ParsesIffFromDevice` | crates/zcash-crypto/src/finalize.rs:433-481 | a signature is read if and only if the bytes are its encoding in one of those shapes |
| `Der.NormalisedIsStable` | crates/zcash-crypto/src/finalize.rs:441-477 | normalisation is idempotent, cuts at most one byte and never a long-form buffer |
| `Der.RefusedIff` | crates/zcash-crypto/src/finalize.rs:433-439 | input of fewer than two bytes, and only that, is refused by its length |
| `Signing.FinalizeTransaction` | crates/zcash-crypto/src/finalize.rs:119-227 | the signer-driven injection returns what `Finalized` defines |
| `Signing.Signer.InjectOrchard` | crates/zcash-crypto/src/finalize.rs:186-202 | one signature per unsigned Orchard action, in order, stopping at the first rejected one |
| `Signing.Signer.InjectIronwood` | crates/zcash-crypto/src/finalize.rs:204-218 | the same for the Ironwood bundle |
| `Signing.Signer.InjectTransparent` | crates/zcash-crypto/src/finalize.rs:220-227 | one DER signature per transparent input, parsed and checked in order |
| `Signing.ApplySigsIff` | crates/zcash-crypto/src/finalize.rs:186-218 | injection succeeds if and only if every signature verifies under its own action's key; otherwise the first misfit is named |
| `Signing.FinalizedIffAcceptable` | crates/zcash-crypto/src/finalize.rs:119-227 | the call succeeds exactly on acceptable signatures: any wrong count or misplaced signature fails it as a whole |
| `Signing.FinalizedSignsEachOnce` | crates/zcash-crypto/src/finalize.rs:128-227 | after success each unsigned action holds exactly its own signature, signed ones are unchanged, none stays unsigned |
| `Signing.RefusalNamesItsCause` | crates/zcash-crypto/src/finalize.rs:119-227 | every refusal names its true cause: the bundle with the wrong count, the action or input whose signature does not fit, or the input without a key |
| `Signing.StampedFindsKey` | crates/zcash-crypto/src/finalize.rs:292-335 | stamping adds the preimage of every recorded key and nothing else |
| `Signing.NoDerivationFound` | crates/zcash-crypto/src/finalize.rs:315-324 | an input without a recorded key is named, the first one |
| `Signing.StampedInputUsesItsKey` | crates/zcash-crypto/src/finalize.rs:268-296 | an input crafted with one derivation is verified against exactly that derivation's pubkey |
| `Signing.SignActions` | crates/zcash-crypto/src/testing.rs:116-156 | one valid signature per unsigned action, in action order; failure names an action whose key does not sign |
| `Signing.SignInPlace` | crates/zcash-crypto/src/testing.rs:134-141 | the loop that signs in place |
| `Signing.SignThenFinalizeSucceeds` | crates/zcash-crypto/src/testing.rs:116-212 | for any mix of signed and unsigned actions of both pools, the signers' output is accepted by finalisation |
| `TrialDecrypt.AnyChunkingMatchesSame` | crates/zcash-crypto/src/decrypt.rs:392-458 | any chunking of the same outputs matches the same transactions |
| `TrialDecrypt.ParsesIffWellFormed` | crates/zcash-crypto/src/decrypt.rs:680-759 | parsing accepts exactly outputs with a 32-byte field element, a 32-byte key and a 52-byte ciphertext and passes those on; a missing or invalid nullifier of an action becomes zero |
| `TrialDecrypt.MatchedIsMatching` | crates/zcash-crypto/src/decrypt.rs:307-458 | for every thread count the matched indices are the transactions with a well-formed output that opens |
| `TrialDecrypt.BatchedIsPlainFilter` | crates/zcash-crypto/src/decrypt.rs:307-473 | for every thread count the result is the plain ordered filter, with order and multiplicity |
| `TrialDecrypt.FoundIffOutputOpens` | crates/zcash-crypto/src/decrypt.rs:307-473 | a txid is returned if and only if a transaction of that id has, in some pool, a well-formed output that opens |
| `BlockSearch.FindBlockHeight` | crates/zcash-sync/src/client.rs:111-156 | the search loop, with every subtraction, product, cast and clamp in range, returns what `Search` defines |
| `BlockSearch.FindInRange` | crates/zcash-sync/src/client.rs:158-193 | the scan of the streamed range |
| `BlockSearch.InterpolationIsInRange` | crates/zcash-sync/src/client.rs:137-141 | the 64-bit product and the 32-bit cast of the interpolation lose nothing |
| `BlockSearch.EstimateInterpolates` | crates/zcash-sync/src/client.rs:137-141 | the probe is the last height whose share of the window is not above the timestamp's share of its time, at least one block inside the window |
| `BlockSearch.SearchFindsCrossing` | crates/zcash-sync/src/client.rs:111-156 | for arbitrary block times: the starting height, the tip, or a block at the timestamp or just below a crossing |
| `BlockSearch.SearchBelowStart` | crates/zcash-sync/src/client.rs:115-125 | an empty chain gives 0; a tip below the starting height fails |
| `BlockSearch.ResultHasGreatestTime` | crates/zcash-sync/src/client.rs:99-193 | for nondecreasing times no block not above the timestamp has a greater time |
| `BlockSearch.LatestIffProbeNotTied` | crates/zcash-sync/src/client.rs:99-193 | for nondecreasing times the result is the brute-force latest block if and only if the upper probe and its successor are not both at the timestamp |
| `BlockSearch.UntiedTimestampFindsLatest` | crates/zcash-sync/src/client.rs:99-193 | in particular for strictly increasing times it is the latest block |
| `BlockSearch.TiedTimestampMissesLatest` | crates/zcash-sync/src/client.rs:143-152 | a chain with two blocks of one time on which the latest is missed |
| `BlockSearch.LatestIsLatest` | crates/zcash-sync/src/client.rs:99-109 | the brute-force definition is the last height in range whose time is not above the timestamp, clamped to the start |
| `Details.RunKeepsInv` | crates/zcash-sync/src/client.rs:356-374 | over every interleaving each started request is in flight or collected once, with its own result |
| `Details.StepsArePossibleIff` | crates/zcash-sync/src/client.rs:356-374 | a start is possible exactly while requests remain and fewer than eight are in flight; any fetch in flight may complete next |
| `Details.AtMostEightInFlight` | crates/zcash-sync/src/client.rs:371-382 | at most eight fetches are in flight at any point of any run |
| `Details.RunsEnd` | crates/zcash-sync/src/client.rs:356-374 | no run gets stuck, and every run ends after exactly two steps per request |
| `Details.FinishedRunIsSequential` | crates/zcash-sync/src/client.rs:346-378 | however fetches interleave, the sorted results are those of fetching one after the other, in request order |
| `Details.FinishedRunReportsEachFetch` | crates/zcash-sync/src/client.rs:361-369 | entry i has the id of request i and its fetched fee and payees, or no fee and no payees when its fetch failed |
| `Details.FailureStaysLocal` | crates/zcash-sync/src/client.rs:361-369 | a failing request changes no other entry, even across different interleavings |

## Left out

- Foreign libraries, `ShardTree`, the incremental tree, the PCZT roles and the transaction builder, are not part of this model; the sparse tree follows the behaviour `tree.rs:98-112` relies on (richer data replaces a summary and keeps it in the cap, only two different hashes at one place conflict), and the builder's acceptance of items, its own fee and its default expiry are parameters.
- Library behaviour on data no honest server sends is kept simple: a legacy tree without a left leaf is a decoding error here, where the library stops the program, and leaves beyond the end of a shard go into the next one.
- The library shuffles the actions of a shielded bundle; `Built.shieldedOutputs` is the order in which outputs are handed to it. Memos are not modelled.
- Wire formats: frontier bytes, PCZT bytes and transaction bytes are read by functions given as parameters; serialisation and redaction are not modelled.
- Cryptography: hashing, signature schemes, note decryption and HASH160 are parameters; proofs, binding signatures, the spend finalizer and the transaction extractor that follow signing are not part of this model.
- `TransactionFee.FeeIsFoundIffSupplied`: assumes the inputs do not exceed the money supply, because the library's amount type reports larger sums as errors; `TransactionFee.ReportedFeeIsTheCallersFee` has no such bound.
- `Der.DerIsUnique`: covers single-length-byte encodings of integers below 2^256; the curve library's further check against the group order is not modelled.
- `Signing.SignActions`: randomised signatures are a function of key and action, so different signatures of two calls are not distinguished; the signer of transparent inputs is not modelled.
- `BlockSearch.FindBlockHeight`: the endpoint answers every height up to the tip, and a height above it fails; other failures of the connection are not modelled.
- `Details.FinishedRunIsSequential`: the standard library's sort is given by what it guarantees, an ordered permutation.
- `TrialDecrypt.BatchedIsPlainFilter`: the parallel map is a union of sets, so scheduling of threads is not modelled.
- `Chunks.AnnouncedCountIsRealIffNonEmpty`: the announced count is computed without a 32-bit bound, which matters only for the range of all 2^32 heights.
- Counters of spends, inputs and outputs, which are 32-bit in the code, are unbounded; amounts have their 64-bit bounds.
- Seed fingerprints, the ZIP-32 paths of shielded spends (only their range check is kept) and the coin type in the PCZT header.
- Key derivation, address encoding, memo handling, network-name parsing for scanning, amount and number formatting, the sync loop and all transport: they would add only easy members.
