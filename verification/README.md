# Blobstream orchestrator and relayer

A model, with proofs, of the attestation pipeline: a Celestia chain issues numbered
attestations (validator sets and data commitments), orchestrators sign them and publish the
signatures in a DHT, and a relayer collects two thirds of them and brings an EVM contract up to
date. `dafny verify dfyconfig.toml` checks everything.

## How it fits together

- **Protocol** is the whole system as a state machine: anybody may issue attestations, sign,
  publish and submit at any time. Every run after a deployment keeps the contract's checkpoint
  equal to that of the last valset up to the contract's nonce, as long as in each valset the
  members that may misbehave hold less than the threshold. The contract and the chain are
  environment: the contract takes nothing but the next nonce, checked against the valset of its
  checkpoint with their powers; it recovers the signer of each signature in turn, fails at one that is not its
  validator's, stops where they are enough, and stores a new valset's sign bytes as checkpoint.
  Nobody can publish or submit a signature that recovers to an account which has not made it.
- **Surroundings** is that machine as an object the programs talk to. Between any two of their
  operations everybody else takes any number of steps, unless it is quiet, and every operation may
  fail, unless it is among the sure ones. Safety needs neither; progress is stated with as few of
  them as the code needs.
- **Relayer** is the relay loop, with its three sources of the previous valset, the backup flag
  and the retries. Every transaction it ever sends is one the contract accepts, or is for a nonce
  the contract has left behind; and undisturbed it brings the contract up to date exactly if the
  DHT holds what every missing attestation needs (`Relayer.Ready`).
- **Signing** is `Process` of the orchestrator, proved to be behaviour that Protocol allows an
  honest signer; **Pipeline** is the machine of its two channels and their goroutines;
  **Orchestration** runs the two together, one method for each goroutine.
- **Quorum**, **Validators**, **Keys**, **Hex**, **Signature** and **Ethereum** are what these
  rest on; **World** shows that the assumptions can be met, by a scheme, a codec and sign bytes
  with which a validator signs, publishes and is relayed in a run the protocol allows; **History**
  and **Deploy** search the past and choose the contract's initial state; **EvmClient**,
  **SignatureStore**, **SpeedUp** and **Retrier** serve the relayer; **Signers** is the tally of
  the query command.

Loops over queries are given the answers they meet: a script of events, a function from keys or
heights to answers, or an object whose methods are nondeterministic. A 10-minute or 30-minute
limit is a number of lookups after which the context ends. Hashing, signing, recovery, JSON and
`TwoThirdsThreshold` are parameters: sign bytes are collision free and differ between the two
kinds of attestation, recovery gives back the address that signed and gives for a recovery id of
27 or 28 what it gives for 0 or 1, if anything, decoding inverts encoding, and three times the
threshold exceeds twice the total power. No function into 32 bytes is collision free on all
inputs, so the sign bytes that stand for the source's 32-byte digests are byte strings of any
length (`Hex.SignBytes`), while r, s and the hash that is recovered from have 32 bytes.

Where the code does less than it seems to promise, the exact condition is proved:

- `SigToVRS` turns away s = n/2, which its error text admits (`Signature.AcceptedIsLowS`).
- The DHT's validators take signatures that `SigToVRS` does not, such as one with an s above n/2.
  A quorum in the DHT can be laid out and submitted exactly when the signature of every member
  that counts is acceptable (`Relayer.EnoughConfirmsAreAccepted`, `World.RelayedIff`); one member
  can hold the relay up (`Relayer.HighSBlocksTheRelay`).
- `Select` of the latest-valset validator returns the last rise, which need not be the greatest
  nonce (`Validators.SelectIsMaximumIff`, `Validators.SelectCanMissTheMaximum`); the two values a
  datastore compares are too few for the difference to show (`Validators.SlotEndsAtMaximum`).
- Deploying from "latest" queries the valset and the nonce separately, and they can disagree
  (`Deploy.LatestStartIsRightIff`, `Deploy.LatestStartCanBeWrong`).
- `QueryLatestValset` takes every failure for "not a valset" (`History.LatestValsetIff`,
  `History.LatestValsetCanBeStale`).
- The loop bound of the catch-up wraps when the earliest nonce exceeds the latest by more than one
  (`Pipeline.CatchUpIff`, `Pipeline.CatchUpCanWrap`).
- The EVM client passes powers through a signed 64-bit number, which keeps those below 2^63 and no
  others; with one of these the validators submitted are not those of the checkpoint
  (`Protocol.SubmittedAreRegisteredIff`).
- A nonce that has failed and is found more than 50 behind is given up, and no run saves it
  (`Pipeline.CanDrain`, `Pipeline.TooOldIsLost`).
- Speeding up compares every resend with the first transaction, so the fees resent rise exactly
  when the suggestions do (`SpeedUp.ResendsRiseIff`, `SpeedUp.ResendsMayFall`); and only the first
  transaction is ever waited for, so if a resent one is mined the result is an error
  (`SpeedUp.WaitAndRetry`).
- The range command has one entry for each spelling of a validator's names, and an entry counts all
  that its address signed exactly when the address signed under no others (`Signers.EntryIsWholeIff`).
- `Retry` with no retries returns nil (`Retrier.Retry`); the pipeline counts such nonces as
  forgotten, and has none if there are retries (`Pipeline.RunsKeepInv`).
- The nonce in a confirm's key is parsed and then ignored (`Validators.NonceIsNotChecked`).

## Model

| member | source | states |
|---|---|---|
| Protocol.RunsKeepInv | relayer/relayer.go:99-146 | over every run of everybody's steps the invariant holds and nothing is undone |
| Protocol.ContractFollowsChain | relayer/relayer.go:99-146 | after a deployment, in every reachable state the contract's checkpoint is that of the last valset with nonce at most the contract's |
| Protocol.StepKeepsInv | relayer/relayer.go:99-146 | one step of anybody keeps the invariant |
| Protocol.AcceptedIsNextAttestation | evm/evm_client.go:128-194 | the contract accepts only the chain's own next attestation, of the right kind |
| Protocol.AuthenticatedValset | relayer/relayer.go:250-279 | a valset from the DHT whose sign bytes are the checkpoint of a contract at n-1 has nonce and members of the last valset before n |
| Protocol.PublishedValsetPasses | types/latest_valset.go:21-36 | the converse: that valset, stripped of its time and read back, passes the check |
| Protocol.DhtEntryIsBacked | p2p/validators.go:16-72 | whatever the DHT holds under a member's key names that member and carries a signature that recovers to it over that digest, which it has therefore signed |
| Protocol.SlotRecovers | evm/evm_transaction_opts.go:54-88 | a signature that recovers to an account still does, for the contract, from the v, r and s of SigToVRS, and its s is low |
| Protocol.CollectedQuorumIsAccepted | relayer/relayer.go:305-321 | a quorum collected for the trusted valset and laid out in its order is accepted by the contract: the validators are those of the checkpoint, each signature recovers to the validator in its place, and the powers submitted are enough |
| Protocol.SubmittedAreRegisteredIff | evm/evm_client.go:274-287 | the validators submitted have the addresses and powers of the members exactly when every power is below 2^63 |
| Relayer.EnoughConfirmsAreAccepted | relayer/relayer.go:211-242 | if the members with a confirm in the DHT reach the threshold, one pass collects them; the array can be made exactly when SigToVRS takes the signature of each of these members, and then the contract accepts it |
| Relayer.LaidOutIff | relayer/relayer.go:564-588 | the same for any one pass: which passes can be laid out |
| Relayer.HighSBlocksTheRelay | relayer/relayer.go:564-588 | a signature with s out of range that recovers to its member passes the DHT's validator, and no array can be made from any map that holds it for a member |
| World.PublishingIsLegal | orchestrator/orchestrator.go:404-452 | the assumptions are met: from a deployed contract, signing a commitment and publishing the confirm is a run of the protocol |
| World.RelayedIff | relayer/relayer.go:211-242 | in that world the poll succeeds, and the commitment reaches the contract exactly when the one signature is acceptable to SigToVRS |
| World.ReadyIff | relayer/relayer.go:187-246 | in that world the commitment is ready to be relayed exactly then |
| Relayer.AssembledTxIsGood | relayer/relayer.go:281-359 | a transaction from a quorum of the right valset is accepted unless the contract has moved on |
| Relayer.Relayer.QueryValsetFromP2PNetworkAndValidateIt | relayer/relayer.go:250-279 | what it returns is the valset the contract will check nonce n against, or the contract has moved on; it returns one if the DHT has the contract's and the queries are answered |
| Relayer.Relayer.PreviousValset | relayer/relayer.go:188-204 | whichever of the three sources answers, the valset is the right one, and one that answers is enough |
| Relayer.Relayer.CollectConfirms | relayer/relayer.go:211-216 | the outcome is that of the first event of the poll that decides; undisturbed it collects exactly when the exact confirms in the DHT hold the threshold |
| Relayer.Relayer.UpdateValidatorSet | relayer/relayer.go:281-322 | the valset update is for the given nonce and members, with the signatures of these confirms, and accepted if it is the next; undisturbed it is built exactly when they can be laid out |
| Relayer.Relayer.SubmitDataRootTupleRoot | relayer/relayer.go:324-359 | the same for a data root |
| Relayer.Relayer.ProcessAttestation | relayer/relayer.go:187-246 | the transaction carries the attestation's digest and nonce, its signatures have been saved, and it is accepted if it is the next; for the next attestation, of either kind, and undisturbed, there is a transaction exactly when the members before it with exact confirms in the DHT reach the threshold and SigToVRS takes the signature of each |
| Relayer.Relayer.Turn | relayer/relayer.go:94-160 | one turn: up to date, a backup wait, or exactly one more transaction, for the next nonce; undisturbed it ends in an error exactly when the next attestation is not ready |
| Relayer.Relayer.ProcessFunc | relayer/relayer.go:91-162 | nil means the contract reached every attestation there was; undisturbed, exactly the missing nonces are sent, in order and once each, up to the first that is not ready, and with more than two turns each the result is nil exactly when all are ready |
| Relayer.Relayer.Start | relayer/relayer.go:164-185 | across ticks and retries everything sent stays good, and a backup's waits are its mined submissions or one more; it returns an error only when a call and then all its retries have failed, and otherwise only at the end of the context |
| Relayer.Relayer.Recover | helpers/retrier.go:31-50 | the retries of the relay loop: calls until one does not fail or all are used; without any, nil |
| Surroundings.Network.Await | evm/evm_client.go:228-246 | the wait for a transaction, which looks at no receipt status |
| Quorum.QueryConfirms | p2p/querier.go:283-299 | the confirms found for the members, in order; any failed lookup fails the pass |
| Quorum.CountConfirms | p2p/querier.go:46-73 | the 64-bit sum over confirms whose address is in the valset, spelled alike |
| Quorum.TallyIsWrapped | p2p/querier.go:60-73 | what is counted is the power of the signers modulo 2^64 |
| Quorum.QueryTwoThirds | p2p/querier.go:38-130 | the first event that is no complete pass below the threshold decides: the confirms of a pass at the threshold, or the error of a failed lookup, of cancellation or of the timeout; without such an event the context's error |
| Quorum.PassIsCompleteIff | p2p/querier.go:283-299 | a pass fails exactly when a lookup of some member fails |
| Quorum.PollSucceeds | p2p/querier.go:100-128 | a success is one complete pass that reached the threshold, after passes without failed lookups |
| Quorum.PassSucceedsIff | p2p/querier.go:61-84 | a complete pass succeeds exactly when the members with an exactly spelled confirm hold the threshold |
| Quorum.BuildSigsMap | relayer/relayer.go:331-335 | the map from address to signature, the last confirm winning |
| Quorum.SigsMapLast | relayer/relayer.go:331-335 | of several confirms of one address the map has the last |
| Quorum.MatchAttestationConfirmSigs | relayer/relayer.go:564-588 | the array is aligned with the members index by index; it fails exactly when a signature it needs is unusable |
| Quorum.ToQueryOutput | cmd/blobstream/query/cmd.go:484-516 | for each member in valset order its address, the names known for it, and its signature, marked as signed exactly if there is one; the power of the members with a signature, and whether that can be relayed |
| Quorum.CountsAgree | p2p/querier.go:61-73 | the power counted by the querier, that of the filled slots, and that shown by the query command are one number |
| Quorum.QuorumsIntersect | p2p/querier.go:52-84 | two successful polls over one valset share members with more than a third of the power |
| Signers.CountSigners | cmd/blobstream/query/cmd.go:248-272 | every listed address with its names has an entry, and its count is that of its signed lines |
| Signers.CountIsOfNonces | cmd/blobstream/query/cmd.go:248-272 | with distinct addresses per valset, the count is the number of attestations signed by the address under these names |
| Signers.EntryIsWholeIff | cmd/blobstream/query/cmd.go:248-272 | that is the number of all attestations the address signed exactly when it signed under no other names |
| Signing.ValidatorPartOfValset | orchestrator/orchestrator.go:471-478 | membership by exact address |
| Signing.BuiltConfirmIsGenuine | orchestrator/orchestrator.go:404-452 | what the orchestrator builds may be put in the DHT under its key |
| Signing.Orchestrator.Process | orchestrator/orchestrator.go:313-402 | at most one publication, none for nonce 1 and none when the known previous valset omits the account, never two for one nonce and digest however often it is called; what is published counts for the member of that address; without an error the nonce is settled; it succeeds without a previous valset, and undisturbed publishes exactly if the nonce was not settled |
| Signing.Orchestrator.SignAndPublish | orchestrator/orchestrator.go:345-401 | nothing is signed again if a confirm is found; otherwise the confirm is in the DHT or there is an error, and there is none if the queries and the key store answer |
| Signing.Orchestrator.Publish | orchestrator/orchestrator.go:404-452 | signing, building and putting the confirm |
| Signing.SettledStays | orchestrator/orchestrator.go:313-402 | a settled nonce stays settled |
| Pipeline.StepConserves | orchestrator/orchestrator.go:256-311 | in each step of each goroutine nonces are conserved, nonce by nonce |
| Pipeline.RunsKeepInv | orchestrator/orchestrator.go:77-126 | over every interleaving: enqueued = on their way + done + given up; both channels stay within 1000; only old nonces and those without an answer are given up |
| Pipeline.EveryNonceIsSomewhere | orchestrator/orchestrator.go:299-311 | every nonce ever enqueued is on its way, done, or dropped for one of the two reasons |
| Pipeline.QueueIsInOrder | orchestrator/orchestrator.go:77-126 | over every run nonces come to be processed in the order in which they were sent |
| Pipeline.CanDrain | orchestrator/orchestrator.go:262-311 | no deadlock: from every state and for every latest nonce the processor and its helpers alone can get everything done but the nonces that wait for MaybeRequeue and are too old for it |
| Pipeline.TooOldIsLost | orchestrator/orchestrator.go:299-311 | no run gets more of a nonce done than that, except by enqueuing it again |
| Pipeline.DownToOnceEach | orchestrator/orchestrator.go:235-251 | the countdown has each missing nonce, and each once |
| Pipeline.CatchUpIff | orchestrator/orchestrator.go:235-251 | the catch-up's loop counts from latest down to earliest exactly when earliest is at most latest + 1 and the two do not span all numbers |
| Pipeline.CatchUpCanWrap | orchestrator/orchestrator.go:235-251 | otherwise its bound wraps, as for latest 1 and earliest 3 |
| Orchestration.Node.EveryNonceIsAccountedFor | orchestrator/orchestrator.go:77-126 | every nonce announced or caught up is on its way, settled in the DHT, more than 50 behind the chain, or dropped for want of an answer, and no confirm was accepted twice |
| Orchestration.Node.TakeTurn | orchestrator/orchestrator.go:263-295 | a turn that does not tick takes the first nonce of the queue, if there is one, and leaves it done, or given to MaybeRequeue, or forgotten exactly for want of retries |
| Orchestration.Node.HandleNonce | orchestrator/orchestrator.go:278-294 | Process is called until it succeeds, or once and then for every retry; a nonce for which it can succeed gets done |
| Orchestration.Node.Conclude | orchestrator/orchestrator.go:284-290 | what becomes of the nonce after the last call |
| Orchestration.Node.ProcessNonces | orchestrator/orchestrator.go:256-296 | the processing loop keeps the pipeline balanced and what it calls done settled; with enough turns that receive, all that was queued and can be done is done |
| Orchestration.Node.EnqueueMissingEvents | orchestrator/orchestrator.go:208-254 | it sends a prefix of the countdown, in order and without omissions; all of it unless a query fails, the context ends or there is no room |
| Orchestration.Node.StartNewEventsListener | orchestrator/orchestrator.go:128-206 | it sends the announced nonces in order; it fails only at a lost node or a nonce that is no number, and is interrupted only by a stop signal or a send that is not taken, having sent exactly what was announced before |
| Orchestration.ParsedAt | orchestrator/orchestrator.go:188-201 | nonces that are 64-bit numbers are sent as they are, each in its place |
| History.SearchByHeight | rpc/app_querier.go:117-148 | the heights visited are h, h-P, h-2P, ... within [1,h], up to the first that answers or one in [1,P], and the last one's answer is the result; the context's error exactly when it lasts for fewer lookups than that takes |
| History.StrideFinds | rpc/app_querier.go:117-148 | an attestation queryable at P consecutive heights inside [1,h] is found |
| History.ShorterWindowIsMissed | rpc/app_querier.go:28-30 | a window one height shorter can be missed |
| History.SearchLastValsetBefore | rpc/app_querier.go:371-394 | the loop over nonces, as a function; the context's error exactly when it lasts for fewer lookups than that takes |
| History.WalkBackIsRight | rpc/app_querier.go:371-394 | what it returns is the valset with the greatest nonce up to where it starts |
| History.WalkBackIsComplete | rpc/app_querier.go:371-394 | with everything retrievable it returns that valset or not-found |
| History.SearchLatest | rpc/app_querier.go:276-306 | the loop over heights, as a function; the context's error exactly when it lasts for fewer heights than that takes |
| History.StridedLatestIsTrue | rpc/app_querier.go:276-306 | what it returns is the last valset up to a nonce the answers show |
| History.StridedLatestFinds | rpc/app_querier.go:276-306 | it finds what each height of a window of P heights can answer |
| History.LatestValsetAnsweredIff | rpc/app_querier.go:257-273 | a valset is returned exactly if the latest attestation is had and a valset, or the one before it is had |
| History.LatestValsetIsHad | rpc/app_querier.go:257-273 | with all queries answered it is the last valset there is |
| History.LatestValsetIff | rpc/app_querier.go:257-273 | the latest valset is right unless the latest attestation is a valset whose query failed |
| History.LatestValsetCanBeStale | rpc/app_querier.go:257-273 | it is wrong for two valsets when the query for the second fails |
| Deploy.NumericStartIsRight | cmd/blobstream/deploy/cmd.go:168-208 | from the number that the decimal text denotes, or the earliest nonce, the valset is that with the greatest nonce at most that number, which is the contract's |
| Deploy.NumericStartFinds | cmd/blobstream/deploy/cmd.go:184-206 | with the attestation of the number denoted and those below it retrievable, that valset is had |
| Deploy.EarliestStartFindsIff | cmd/blobstream/deploy/cmd.go:168-183 | "earliest" succeeds exactly when the first attestation is had from the node, or after an error from its history |
| Deploy.LatestStartFinds | cmd/blobstream/deploy/cmd.go:155-167 | "latest" succeeds when the node answers, or when a window of heights of an archive does |
| Deploy.NumericDeploymentIsTrusted | evm/evm_client.go:73-126 | a contract deployed that way is in a state from which all runs are safe |
| Deploy.LatestStartIsRightIff | cmd/blobstream/deploy/cmd.go:155-230 | from "latest", valset and nonce fit exactly when no valset was issued in between |
| Deploy.LatestStartCanBeWrong | cmd/blobstream/deploy/cmd.go:155-230 | a valset issued between the two queries leaves the contract with a checkpoint that is not the chain's |
| EvmClient.EthValset | evm/evm_client.go:274-287 | the members in order, each with its decoded address and, exactly if that is below 2^63, its power; it fails exactly on a malformed address |
| EvmClient.UpdateValidatorSet | evm/evm_client.go:128-168 | what is submitted for a valset, with the decoded validators and with current nonce 0 for the first |
| EvmClient.SubmitDataRootTupleRoot | evm/evm_client.go:170-194 | what is submitted for a data root, with the decoded validators |
| SignatureStore.Store.Save | relayer/relayer.go:361-413 | a save adds exactly the supplied confirms whose keys are new, or changes nothing; it succeeds exactly without a fault |
| SignatureStore.FreshKeys | relayer/relayer.go:370-386 | which keys a save adds, and with what |
| SignatureStore.FreshIsLast | relayer/relayer.go:370-386 | of several confirms for one key the last is saved |
| SignatureStore.WriteOnce | relayer/relayer.go:361-413 | over every sequence of saves stored values never change and every supplied key ends up stored |
| SignatureStore.EntriesNeverCollide | relayer/relayer.go:371-396 | entries of different subjects or signers have different keys |
| SpeedUp.WaitAndRetry | relayer/relayer.go:417-558 | at most ten waits, all for the first transaction; each resend is that of its turn, the same but for a higher fee; nil exactly after a wait without error, so never once the first transaction cannot be mined |
| SpeedUp.ResendsRiseIff | relayer/relayer.go:419-485 | over every sequence of turns the fees resent rise strictly exactly when the suggestions of the turns that outbid the first transaction do |
| SpeedUp.ResendsMayFall | relayer/relayer.go:419-485 | they fall for suggestions of 20 and then 15 |
| SpeedUp.ResendsIff | relayer/relayer.go:425-466 | a turn resends exactly if its suggestion exceeds the first fee and the copy can be signed; the copy has that fee and all else alike |
| SpeedUp.DecidesIff | relayer/relayer.go:425-471 | no copy exactly if the suggestion is no higher than the first fee; an error exactly if the suggestion is not had or a copy called for cannot be signed |
| Retrier.Retry | helpers/retrier.go:31-50 | calls until the first success or all; the last error; nil for no retries |
| Retrier.SucceedsIff | helpers/retrier.go:31-50 | without cancellation it returns nil exactly if some call succeeds |
| Retrier.TotalBackoff | helpers/retrier.go:60-64 | (2^k - 1) times the base delay has been waited before call k, without overflow while the total fits 63 bits |
| Keys.ParseInvertsBuild | p2p/keys.go:16-68 | ParseKey inverts both key builders for every 64-bit nonce and clean fields |
| Keys.ParseKeyIff | p2p/keys.go:42-68 | exactly which keys parse, and to which fields |
| Keys.KeysNeverCollide | p2p/keys.go:16-33 | the builders are injective over kind, nonce, address and digest |
| Keys.NumberRoundTrip | p2p/keys.go:55-58 | base-16 round trip of every 64-bit number |
| Keys.ParseUintIff | cmd/blobstream/deploy/cmd.go:185 | in any base, exactly the non-empty texts of digits below it parse, to the sum of the digits times their places, if that fits 64 bits |
| Keys.KeyText | p2p/keys.go:16-33 | the text of both kinds of key: its namespace, the nonce in lower-case hex without leading zeros, the address and the digest |
| Hex.DecodeIff | p2p/validators.go:45-63 | decoding inverts encoding and ignores case only |
| Hex.DecodePrefixIff | evm/evm_transaction_opts.go:55 | of malformed text exactly the pairs of digits it starts with are decoded |
| Hex.LexIsNumeric | evm/evm_transaction_opts.go:82 | comparing equally long hex texts compares numbers |
| Signature.StringCheckIsNumeric | evm/evm_transaction_opts.go:47-85 | what the two string comparisons decide about the number s |
| Signature.SigToVRSIff | evm/evm_transaction_opts.go:54-88 | accepted exactly for 65 bytes, v one of 0, 1, 27, 28 and 0 < s < 0x7fff...20a0, and which error otherwise; v normalised, r and s the halves |
| Signature.SpellingDoesNotMatter | evm/evm_transaction_opts.go:54-60 | either case, with or without 0x |
| Signature.AcceptedIsLowS | evm/evm_transaction_opts.go:81-85 | accepted s is low in the sense of EIP-2, and of that range only n/2 itself is turned away |
| Ethereum.SignThenValidate | evm/ethereum_signature.go:22-60 | a signature of the account is accepted for its address and no other |
| Ethereum.HexAddressInjective | evm/ethereum_signature.go:55-57 | comparing checksummed texts compares addresses |
| Ethereum.IsHexAddressIff | evm/evm_client.go:277-280 | exactly the texts of 20 bytes in hex, in either case and with or without a prefix, are addresses, and decode to these bytes |
| Validators.PublishedConfirmValidates | p2p/validators.go:16-72 | every confirm an orchestrator builds passes its validator under its key |
| Validators.ValidateIff | p2p/validators.go:16-72 | exactly which keys and values validate: the namespace of the kind, an address, a confirm naming it up to case, and a signature of it over the digest, in hex of either case with or without 0x |
| Validators.ValidatedWasSigned | p2p/validators.go:136-192 | nothing validates under somebody's key that this somebody did not sign |
| Validators.NonceIsNotChecked | p2p/validators.go:16-72 | the nonce in the key makes no difference to validation |
| Validators.SelectConfirm | p2p/validators.go:119-130 | the first valid value, and an error exactly if there is none |
| Validators.SelectLatest | p2p/validators.go:95-115 | the position of the last rise, after the checks of key and values |
| Validators.SelectIsMaximumIff | p2p/validators.go:92-115 | it is the greatest nonce exactly when some greatest nonce is followed by no value that exceeds the one before it |
| Validators.SelectCanMissTheMaximum | p2p/validators.go:104-113 | for nonces 5, 3, 4 it returns 4 |
| Validators.SlotEndsAtMaximum | p2p/dht.go:164-178 | a slot updated by two-value selection only rises and ends at the greatest nonce put |
| Validators.SlotIsGated | p2p/validators.go:78-90 | behind its validator a slot never holds an empty valset and ends at the greatest nonce of those that are not |

## Left out

- Protocol.Accepts: the contract itself is not part of this model; only the checks that the relayer relies on are fixed, and the threshold stored in the contract is taken to be that of the valset in its checkpoint.
- Orchestration.Node.ProcessNonces: what happens after cancellation, when the channels are closed while helpers may still send, is not modelled.
- Orchestration.Node.StartNewEventsListener: resubscribing after a lost connection and the panic on an event without the expected attributes are not modelled; a connection that cannot be recovered ends it.
- Orchestration.Node.EnqueueMissingEvents: waiting for the first height is not modelled.
- Orchestration.Node.Send: a send that never finds room ends with the context instead of blocking for ever.
- Deploy.NumericStartIsRight: the 10-minute limit of the searches is not modelled here, since running into it gives an error.
- Relayer.Relayer.ProcessFunc: that it ends is proved for a network on which nobody else acts and nothing fails; in general nothing bounds how often it is cut short.
- EvmClient.UpdateValidatorSet: the conversion of nonces and thresholds to signed 64-bit numbers is not modelled, and the threshold of the new valset is part of what its sign bytes stand for.
- Protocol.RunsKeepInv: forging a signature is taken to be impossible, not improbable, and so is a collision of sign bytes.
- Protocol.ProperValset: a power of 2^63 or more is taken not to occur in an attestation; the EVM client would not submit it as it is.
- Surroundings.Network.ProvideLatestValset: what the DHT holds as the latest valset is arbitrary, so offering one has no effect.
- Surroundings.Network.GetConfirm: a DHT that loses confirms, or answers that an existing one is not found, is not modelled.
- SpeedUp.WaitAndRetry: whether go-ethereum's fee accessors can be nil is left to it; all branches of the code are modelled, and it is not joined to Relayer, which only relies on what ends without an error.
- Quorum.ToQueryOutput: the map of names is given to it; how the staking module's validators fill it is not modelled.
- Validators.PublishedConfirmValidates: texts are sequences of bytes, and ignoring case means ASCII case.
- gRPC, Tendermint, websocket, Ethereum and libp2p clients: their answers are inputs of the model.
- Telemetry, logging, flags, configuration files, key management and the file system lock of the store.
- History.SearchByHeight and its siblings take the length of 20 days in blocks as a parameter.
