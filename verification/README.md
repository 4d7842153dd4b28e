# Verified models of the everything-dev host, auth, upload and release code

This project models the protocols and algorithms of the repository that can be stated apart from
network, database and cryptography, and proves what they promise. `dafny verify dfyconfig.toml`
checks all of it.

| modules | what they model |
|---|---|
| `NonceRewrite`, `NonceSegments`, `NoncePieces`, `NonceNormalizer`, `NonceIdempotence`, `NonceEncoding` | the streaming rewrite of script, bootstrap and meta nonces in HTML |
| `Wrappers`, `Collections` | results, options and facts about sequences and sets that the models share |
| `StringOrder`, `VersionManifest` | the canonical text a version id is hashed from |
| `BuildOrder` | the release build order |
| `Borsh`, `Cose`, `CoseCutOff` | wallet and NEP-413 serialisation, the CBOR reader and COSE key parser |
| `AccountTables`, `AccountHandlers`, `AccountInvariants`, `AccountListing` | linking, unlinking and choosing NEAR accounts |
| `FundingLock` | the promise chain that guards gas-key funding |
| `BindingResolver`, `CappedStore` | the tenant binding cache and the rate limiter's store |
| `McpSchema` | the closure of component schemas behind a tool's input schema |
| `SnapshotSwap`, `SnapshotWatch`, `Reconciler` | adopting, watching and converging on published deployments |
| `PruneModules` | the keep set and the prune of `node_modules` |
| `BundleKeys`, `BundleStore`, `BundleUpload` | namespaced bundle storage, deduplicated upload and paged listing |

State that the sources update in place is a class here, specified by functions on values; runs and
interleavings are sequences of steps of those values. Clocks, random choices, the order in which a
database returns rows, the scheduling of concurrent tasks, and the outcome of every effect that can
fail are arguments or free choices, so each result holds for all of them. Identifiers, fingerprints
and hashes of which only equality matters are types or functions left open.

The documents of the nonce rewriter are those in which no `<` and no bootstrap prefix occurs inside a
script or meta tag, every value a tag pattern could rewrite closes before the tag does, and the value
of a closed bootstrap assignment holds neither `<` nor the bootstrap prefix without its quote; a tag or
an assignment may still be open where the text ends. The nonce is base64 text.

## Where the code falls short of what it promises

- The nonce rewrite is not idempotent for a nonce that ends with `content=`: with its closing quote it
  reads as the opening of the meta pattern (`NonceIdempotence.IdempotentExactly`). A base64 encoder never
  ends a text in `t=`, because the digit before a single `=` has two zero bits; so for every nonce that was
  encoded the rewrite is idempotent after all (`NonceEncoding.EncodedIsIdempotent`).
- Unlinking looks for another primary among rows with a different account id only. It leaves a user
  without a primary when the rest are the same account id on another network; deriving networks from
  account ids is what keeps that from happening (`AccountInvariants.UnlinkKeepsPrimaryExactly`).
- Entries of the funding lock map are never deleted: a derived promise is stored, the run itself is
  compared (`FundingLock.LocksStay`).
- The NEP-413 serializers of `passkey.ts` and `index.ts` disagree on every input about the tag of the
  optional callback URL (`Borsh.SerialisersDiffer`). NEP-413 messages are Borsh, where an option's tag is
  one byte.
- A component called `$ref` whose schema is a string that reads as a reference is rewritten into a
  reference nothing defines (`McpSchema.SchemaResolves`, `McpSchema.DanglingReference`).
- With a watch interval above the five-minute cap the first failed adopt shortens the delay
  (`SnapshotWatch.SteadyExactly`).
- The COSE parser does not look at where reading ends: an EC2 key that is cut off inside y is parsed as a key
  with even parity, whatever y was (`CoseCutOff.CutInY`).
- A tick of the watch writes back the `lastSeen` it captured when it began. If a tick asked for from outside
  the loop adopts a pointer meanwhile, `lastSeen` forgets it (`SnapshotWatch.OverlapForgets`); no caller in the
  repository asks for one.
- Repeating an upload stores a file again whenever asking for its integrity fails: a failed stat counts as a
  change (`BundleUpload.UploadTwice`).
- An empty set of tenant bindings is not cached at all: the next lookup fetches again
  (`BindingResolver.PauseIsExact`).

## Model

| member | source | states |
|---|---|---|
| `NonceRewrite.LastOpeningIs` | host/src/services/nonce-normalizer.ts:26-28 | the scanner that stands for the greedy tag patterns finds the last place before the end of the tag where everything the pattern wants has been read and a closing quote still follows; later places are not closable |
| `NonceRewrite.RewriteText` | host/src/services/nonce-normalizer.ts:30-36 | reassigning one text variable for each of the three patterns gives the whole-document rewrite |
| `NonceRewrite.ReplaceSkips` | host/src/services/nonce-normalizer.ts:33 | text in which no match starts comes out of a replacement unchanged, whatever follows it |
| `NonceRewrite.FindInClosedTag` | host/src/services/nonce-normalizer.ts:26-28 | what a tag pattern finds in a closed tag whose values are closed does not depend on the text after it |
| `NonceSegments.RewriteTag` | host/src/services/nonce-normalizer.ts:23-37 | a closed tag is rewritten on its own: rewriting it with any text behind it is rewriting both separately |
| `NonceSegments.RewriteAssignment` | host/src/services/nonce-normalizer.ts:23-37 | a closed bootstrap assignment becomes the prefix, the new nonce and a quote, and the text behind it is rewritten separately |
| `NonceSegments.RewriteCharacter` | host/src/services/nonce-normalizer.ts:23-37 | a character that starts neither tag nor assignment is kept, and the rewrite of the rest completes no pattern with it |
| `NoncePieces.FirstAlone` | host/src/services/nonce-normalizer.ts:23-37 | the first piece of a document (tag, assignment or character) is rewritten independently of the rest |
| `NoncePieces.Splits` | host/src/services/nonce-normalizer.ts:23-37 | at every boundary between pieces, rewrite(a + b) is rewrite(a) + rewrite(b) |
| `NonceNormalizer.FindOpenAngle` | host/src/services/nonce-normalizer.ts:45-46 | the first scan finds the last angle bracket if no closing one follows it |
| `NonceNormalizer.LowerToPartial` | host/src/services/nonce-normalizer.ts:47-52 | the second scan lowers the cut to the start of the longest partial bootstrap prefix at the end of the text |
| `NonceNormalizer.FindLast` | host/src/services/nonce-normalizer.ts:53-54 | the third scan finds the last complete bootstrap prefix |
| `NonceNormalizer.HoldBackFrom` | host/src/services/nonce-normalizer.ts:43-56 | the three scans together give the specified cut |
| `NonceNormalizer.CutIsBoundary` | host/src/services/nonce-normalizer.ts:39-56 | whatever has arrived of a document, the cut falls between two of its pieces, never inside a match |
| `NonceNormalizer.Normalizer.Transform` | host/src/services/nonce-normalizer.ts:65-71 | a chunk emits the rewrite of everything before the cut and leaves the rest pending |
| `NonceNormalizer.Normalizer.Flush` | host/src/services/nonce-normalizer.ts:72-76 | the flush emits the rewrite of what was pending and leaves nothing |
| `NonceNormalizer.ChunksDoNotMatter` | host/src/services/nonce-normalizer.ts:58-78 | for every document and every way of cutting it into chunks, the emitted pieces and the flush make up the whole-document rewrite |
| `NonceNormalizer.Pipe` | host/src/services/nonce-normalizer.ts:58-78 | a body piped through the stream object is served as the whole-document rewrite |
| `NonceIdempotence.RewriteIsIdempotent` | host/src/services/nonce-normalizer.ts:23-37 | rewriting a rewritten document changes nothing, unless the nonce with its quote spells the opening of a pattern |
| `NonceIdempotence.HarmfulNonce` | host/src/services/nonce-normalizer.ts:28 | for every nonce that ends with `content=` there is a document whose second rewrite differs from its first |
| `NonceIdempotence.IdempotentExactly` | host/src/services/nonce-normalizer.ts:23-37 | the rewrite is idempotent on all documents exactly for the base64 nonces that do not end with `content=` |
| `NonceEncoding.EncodedIsIdempotent` | host/src/services/nonce-normalizer.ts:11-37 | for every nonce that a base64 encoder produces the rewrite is idempotent on all documents |
| `StringOrder.SortIgnoresOrder` | packages/every-plugin/src/version-manifest.ts:102 | the value of a sort depends on what is sorted, not on the order it arrives in |
| `VersionManifest.StringifyApart` | packages/every-plugin/src/version-manifest.ts:96-106 | no canonical text is a proper start of another one |
| `VersionManifest.TextDeterminesMeaning` | packages/every-plugin/src/version-manifest.ts:96-106 | equal texts come only from trees that are equal up to key order and dropped undefined fields |
| `VersionManifest.MeaningDeterminesText` | packages/every-plugin/src/version-manifest.ts:96-106 | trees that are equal up to key order and dropped undefined fields have equal texts |
| `VersionManifest.HashedTextIdentifies` | packages/every-plugin/src/version-manifest.ts:87-92 | the hashed text of two manifests is equal exactly when all coordinates are; the build time and the field order never matter |
| `VersionManifest.SameCoordinatesSameVersion` | packages/every-plugin/src/version-manifest.ts:80-94 | the same coordinates give the same version id whenever they were built |
| `BuildOrder.CollectDependents` | scripts/publish-release-packages.ts:63-69 | every package is listed as a dependent once for each time it declares another |
| `BuildOrder.CountDown` | scripts/publish-release-packages.ts:79-86 | building a package counts its dependents down, and exactly those with nothing left unresolved join the sorted ready list |
| `BuildOrder.TopologicalBuildOrder` | scripts/publish-release-packages.ts:59-96 | returns the lexicographically least order of all packages with dependencies first, or fails; it fails exactly when there is a cycle or a missing package, and names, in the order of the map, the greatest set of packages that each depend on another of them or on a missing one |
| `BuildOrder.GreedyIsLeast` | scripts/publish-release-packages.ts:71-87 | always taking the least ready package gives the least build order |
| `BuildOrder.StuckMeansCycle` | scripts/publish-release-packages.ts:89-94 | when nothing is ready and something is left there is a cycle or a missing package |
| `BuildOrder.BuildOrderExcludes` | scripts/publish-release-packages.ts:89-94 | a graph with a cycle or a missing package has no build order |
| `BuildOrder.InsertionOrderIrrelevant` | scripts/publish-release-packages.ts:59-96 | there is only one least build order, so the insertion order of the map does not matter |
| `BuildOrder.WorkspaceGraphIsClosed` | scripts/publish-release-packages.ts:39-57 | in the graph built from the workspace no dependency is missing |
| `BuildOrder.ReleaseOrder` | scripts/publish-release-packages.ts:39-98 | for the workspace the order fails exactly on a cycle |
| `Borsh.ConcatBytes` | packages/better-near-auth/src/index.ts:546-555 | the buffer filled part by part is the concatenation of the parts |
| `Borsh.BorshWriter.ToBytes` | packages/better-near-auth/src/passkey.ts:91-99 | the writer's buffer is the concatenation of everything written |
| `Borsh.BorshWriter.WriteBytes` | packages/better-near-auth/src/passkey.ts:86-89 | a byte string is appended with its length in four little-endian bytes |
| `Borsh.PrefixedReadsBack` | packages/better-near-auth/src/index.ts:557-566 | a length-prefixed byte string below 2^32 bytes can be read back whatever follows it |
| `Borsh.SerializeDefaultWalletState` | packages/better-near-auth/src/passkey.ts:115-126 | the calls of the writer produce the wallet state |
| `Borsh.SerializeDefaultStateInit` | packages/better-near-auth/src/passkey.ts:128-139 | the calls of the writer produce the state init around the wallet state |
| `Borsh.StateInitInjective` | packages/better-near-auth/src/passkey.ts:128-139 | the state-init bytes determine the factory id and the key bytes |
| `Borsh.Nep413Preimage` | packages/better-near-auth/src/passkey.ts:153-166 | a nonce that is not 32 bytes long is refused; otherwise the bytes before hashing are the specified preimage |
| `Borsh.PreimageInjective` | packages/better-near-auth/src/passkey.ts:153-166 | the preimage determines message, nonce and recipient |
| `Borsh.SerializeNep413Message` | packages/better-near-auth/src/index.ts:568-585 | a nonce that is not 32 bytes long is refused; otherwise the parts concatenate to the specified message |
| `Borsh.MessageInjective` | packages/better-near-auth/src/index.ts:568-585 | two messages have the same bytes exactly when message, nonce, recipient and callback URL are the same, an empty URL counting as none |
| `Borsh.SerialisersDiffer` | packages/better-near-auth/src/passkey.ts:163 | the two serializers never produce the same bytes: one writes the callback option in one byte, the other in four |
| `Cose.ReadCborItem` | packages/better-near-auth/src/passkey.ts:186-232 | the cursor loop that fills a map computes the recursive reader, with undefined bytes, values that are not numbers and zeros where it reads past the end of the buffer |
| `Cose.ReadsBack` | packages/better-near-auth/src/passkey.ts:186-232 | in any buffer and at any offset, the reader inverts the encoder of section 3.1 of RFC 8949 for integers, byte strings and integer-keyed maps of any nesting and any argument width, and stops exactly at the end of the item |
| `Cose.ReadsSame` | packages/better-near-auth/src/passkey.ts:186-232 | an item whose reading ends inside the buffer does not depend on what follows it |
| `Cose.CutOffShows` | packages/better-near-auth/src/passkey.ts:186-232 | wherever the encoding of an item is cut off, reading it fails or ends past the end of the buffer, which the parser does not look at |
| `Cose.ParseCosePublicKey` | packages/better-near-auth/src/passkey.ts:235-258 | the parser returns the key of the map that is read, and nothing after any reading error; a key is a point of 33 bytes starting with 2 or 3, or 32 bytes |
| `Cose.ParsedIsKeyOf` | packages/better-near-auth/src/passkey.ts:235-258 | trailing bytes do not change what is parsed |
| `Cose.Ec2KeyRecovered` | packages/better-near-auth/src/passkey.ts:241-248 | from any key order of an EC2 key, x and the parity of y are recovered as the compressed point |
| `Cose.OkpKeyRecovered` | packages/better-near-auth/src/passkey.ts:249-254 | from any key order of an OKP key, x is recovered |
| `Cose.KeysExactly` | packages/better-near-auth/src/passkey.ts:235-258 | from a map with distinct keys, exactly the key its entries describe is parsed: type, algorithm and curve must match, and x be 32 bytes; nothing else makes a key |
| `CoseCutOff.CutPairs` | packages/better-near-auth/src/passkey.ts:217-229 | what the reader finds in a map that was cut off, apart from zeros, comes from an entry whose value has started, and is that value or what can still be read of it |
| `CoseCutOff.CutOkpKey` | packages/better-near-auth/src/passkey.ts:235-258 | wherever an OKP key is cut off, the parser gives no key or the same key |
| `CoseCutOff.CutEc2Key` | packages/better-near-auth/src/passkey.ts:235-258 | wherever an EC2 key is cut off, whatever the order of its entries, the parser gives no key or one with the same x; only the parity may differ |
| `CoseCutOff.CutInY` | packages/better-near-auth/src/passkey.ts:235-258 | an EC2 key whose y comes last still gives a key exactly from the first byte of y's encoding on, and always with even parity |
| `AccountTables.SameKey` | packages/better-near-auth/src/index.ts:191-193 | comparing composite keys is comparing account and network |
| `AccountTables.WalletIsMainnet` | packages/better-near-auth/src/passkey.ts:141-151 | a passkey wallet id never reads as a testnet account |
| `AccountHandlers.Tables.Link` | packages/better-near-auth/src/index.ts:998-1045 | linking refuses an account that is already linked, and otherwise adds the row, primary if the user has none, with its sign-in row |
| `AccountHandlers.Tables.LinkPasskeyWallet` | packages/better-near-auth/src/passkey-wallet-link.ts:43-103 | the passkey link refuses another user's wallet, reports an own one as linked, and otherwise links it |
| `AccountHandlers.Tables.Verify` | packages/better-near-auth/src/index.ts:1517-1615 | signing in finds the account's owner, or creates a user with the account as primary |
| `AccountHandlers.Tables.Unlink` | packages/better-near-auth/src/index.ts:1191-1259 | unlinking refuses foreign accounts and the last sign-in method, promotes a row of another account id where one is needed, and deletes the row and its sign-in row |
| `AccountHandlers.Tables.UpdateFlags` | packages/better-near-auth/src/index.ts:1319-1327 | updating every row by its id, in any order, moves the flag to the chosen account |
| `AccountHandlers.Tables.SetPrimary` | packages/better-near-auth/src/index.ts:1296-1327 | setting the primary refuses accounts that are not the user's own and otherwise moves the flag |
| `AccountInvariants.LinkedIsSound` | packages/better-near-auth/src/index.ts:1007-1045 | linking keeps every part of the invariant |
| `AccountInvariants.NoSecondNetwork` | packages/better-near-auth/src/index.ts:1538-1556 | the branch that attaches a second network to a known account is never taken |
| `AccountInvariants.VerifyKeeps` | packages/better-near-auth/src/index.ts:1517-1615 | signing in keeps the invariant and signs in the account's owner; an unknown account becomes the one primary account of a new user |
| `AccountInvariants.RowUnlinkedKeeps` | packages/better-near-auth/src/index.ts:1217-1259 | unlinking removes exactly one NEAR row and its one sign-in row and keeps the correspondence between the tables |
| `AccountInvariants.UnlinkKeepsPrimaryExactly` | packages/better-near-auth/src/index.ts:1221-1237 | unlinking leaves exactly one primary exactly when the row removed is not a primary whose user has left only the same account id on another network |
| `AccountInvariants.StrandedWithoutPrimary` | packages/better-near-auth/src/index.ts:1221-1237 | in that case unlinking succeeds and leaves the user without a primary |
| `AccountInvariants.NothingStrands` | packages/better-near-auth/src/index.ts:937 | while networks are derived from account ids that case does not arise |
| `AccountInvariants.UnlinkKeeps` | packages/better-near-auth/src/index.ts:1191-1259 | unlinking keeps the invariant and leaves the user a sign-in method |
| `AccountInvariants.SetPrimaryKeeps` | packages/better-near-auth/src/index.ts:1296-1327 | setting the primary makes the named account the only primary and changes nothing else |
| `AccountInvariants.StepKeeps` | packages/better-near-auth/src/index.ts:998-1615 | every request keeps the invariant |
| `AccountInvariants.RunsAreSound` | packages/better-near-auth/src/index.ts:998-1615 | in every state of every run each account has one owner, the NEAR rows and the `siwn` rows correspond one to one, and each user with NEAR accounts has exactly one primary |
| `AccountInvariants.UnlinkLeavesAMethod` | packages/better-near-auth/src/index.ts:1210-1215 | along every run, unlinking never removes the last sign-in method |
| `AccountListing.SortIsStable` | packages/better-near-auth/src/index.ts:215-218 | the sort is a stable permutation into the order of the comparator |
| `AccountListing.ListingOf` | packages/better-near-auth/src/index.ts:201-228 | for any order of the rows the listing holds each once, the primary is the one active entry and comes first, and the available entries are the others in order |
| `FundingLock.Funding.Enter` | packages/better-near-auth/src/index.ts:780-789 | a call waits for the promise stored for its key and stores the one derived from its own run |
| `FundingLock.Funding.CheckCapOf` | packages/better-near-auth/src/index.ts:2127-2136 | a call goes on to the transfer exactly when the total it has read and one more amount fit the cap |
| `FundingLock.Funding.RecordFunding` | packages/better-near-auth/src/index.ts:2145-2156 | recording adds the amount for the call's own key, or fails |
| `FundingLock.Funding.Leave` | packages/better-near-auth/src/index.ts:790-794 | the final block deletes the entry only if it holds the run itself |
| `FundingLock.StepKeeps` | packages/better-near-auth/src/index.ts:780-795 | every step of every call keeps the chain, the turns and the cap |
| `FundingLock.OneAtATimeWithinCap` | packages/better-near-auth/src/index.ts:2086-2156 | in every interleaving with any failures, at most one section per user and network runs, sections start in order of arrival, and the recorded total never exceeds the cap |
| `FundingLock.RemainingNeverNegative` | packages/better-near-auth/src/index.ts:2234-2262 | the reported remaining amount lies between zero and the cap, even when the read fails |
| `FundingLock.LocksStay` | packages/better-near-auth/src/index.ts:790-794 | an entry never leaves the lock map, because what is stored is not the promise compared with |
| `FundingLock.NeverStuck` | packages/better-near-auth/src/index.ts:780-795 | for each user and network, the earliest call that has not settled can always take a step, or the tail it waits for can settle, whatever calls of others wait for |
| `BindingResolver.Resolver.EnsureLoaded` | host/src/services/binding-resolver.ts:105-137 | a lookup rejects during the negative cache, answers from current entries, joins the fetch under way, or starts one |
| `BindingResolver.Resolver.Loaded` | host/src/services/binding-resolver.ts:139-144 | a completed load replaces the cache |
| `BindingResolver.Resolver.Failed` | host/src/services/binding-resolver.ts:145-168 | a failed load serves what was stale when it started, or opens the negative cache |
| `BindingResolver.StepKeeps` | host/src/services/binding-resolver.ts:105-178 | a fetch starts only when none is outstanding, and the cache keeps the last load |
| `BindingResolver.OneFetchAtATime` | host/src/services/binding-resolver.ts:133-135 | in every run at most one fetch is outstanding |
| `BindingResolver.AnswersComeFromLoads` | host/src/services/binding-resolver.ts:105-178 | every answer is the latest completed load, and once a non-empty one is there no lookup is rejected |
| `BindingResolver.NoRejectionAfterLoad` | host/src/services/binding-resolver.ts:145-156 | after a non-empty load and until a refresh returns an empty set no lookup rejects, whatever fails |
| `BindingResolver.PauseIsExact` | host/src/services/binding-resolver.ts:112-135 | once a fetch has settled, a lookup fetches again exactly when ten seconds (rejected), thirty seconds (non-empty) or no time at all (empty set) have passed |
| `BindingResolver.FetchesKeepTheirDistance` | host/src/services/binding-resolver.ts:112-135 | along every run the next fetch starts no sooner than that, however far away it is |
| `CappedStore.Store.Increment` | host/src/middleware/security.ts:70-85 | an increment counts in a live window and otherwise starts a new one at the end, trimmed to the cap |
| `CappedStore.Store.EnforceCap` | host/src/middleware/security.ts:110-121 | the two deleting loops together remove exactly the oldest entries that do not fit |
| `CappedStore.Store.DropExpired` | host/src/middleware/security.ts:113-116 | the loop over expired entries removes entries only from the front |
| `CappedStore.Store.Decrement` | host/src/middleware/security.ts:87-90 | a decrement lowers a positive count |
| `CappedStore.Store.ResetKey` | host/src/middleware/security.ts:92-94 | resetting a key removes its window |
| `CappedStore.Store.Get` | host/src/middleware/security.ts:100-108 | reading answers a live window and deletes an expired one |
| `CappedStore.IncrementedInOrder` | host/src/middleware/security.ts:70-85 | an increment keeps windows sorted by reset time and within the cap, the key just counted is there with the count returned, and a new key at the cap evicts exactly the oldest window |
| `CappedStore.EvictedHasExpired` | host/src/middleware/security.ts:110-121 | with at most `cap` live windows, a window that has to go has expired |
| `CappedStore.CapUnnoticedFromStart` | host/src/middleware/security.ts:63-122 | on runs with at most `cap` live windows every call answers what one unbounded counter per key would |
| `McpSchema.Collect` | host/src/services/mcp.ts:31-44 | collecting adds exactly the names that component references reach, after the ones already there |
| `McpSchema.RewriteRedirects` | host/src/services/mcp.ts:46-56 | rewriting leaves no component reference, and the references into `$defs` are the old ones and the rewritten ones |
| `McpSchema.Close` | host/src/services/mcp.ts:85-92 | iterating over the set while it grows terminates with the names in every closed set around the first references |
| `McpSchema.RootsReachable` | host/src/services/mcp.ts:85-92 | that set is itself closed |
| `McpSchema.BuildProperties` | host/src/services/mcp.ts:62-83 | parameters and body are merged in order |
| `McpSchema.PropertyIs` | host/src/services/mcp.ts:62-83 | a property comes from the body if the body has it, and otherwise from the last parameter of that name |
| `McpSchema.BuildToolInputSchema` | host/src/services/mcp.ts:58-106 | fails exactly when a reachable component is missing, naming the missing ones; otherwise the definitions are the reachable components |
| `McpSchema.SchemaResolves` | host/src/services/mcp.ts:100-105 | the published schema has no component reference left, has one definition for each reachable component, and every rewritten reference resolves, except exactly for a component called `$ref` whose schema is a string that reads as a reference |
| `McpSchema.DanglingReference` | host/src/services/mcp.ts:104 | that exception can happen |
| `SnapshotSwap.Snapshot.Swap` | host/src/services/runtime-snapshot.ts:104-108 | a swap is the two steps of the state machine that install the next state and release the one it replaced, unless they are the same |
| `SnapshotSwap.Snapshot.Adopt` | host/src/services/snapshot-coordinator.ts:111-170 | run alone, a transaction is a run of the state machine's steps that swaps exactly when everything succeeds and the fingerprint is new; otherwise the live state stays |
| `SnapshotSwap.StepKeeps` | host/src/services/snapshot-coordinator.ts:111-188 | every step of every adopt and request keeps the invariant |
| `SnapshotSwap.EveryRun` | host/src/services/runtime-snapshot.ts:102-109 | in every interleaving neighbouring fingerprints differ, the live generation is not released, and each replaced one is released once |
| `SnapshotSwap.LiveCachesKept` | host/src/services/runtime-snapshot.ts:55-59 | no step takes anything from the caches of the live generation; only the release of a replaced one empties caches |
| `SnapshotSwap.AdoptIsAtomic` | host/src/services/snapshot-coordinator.ts:179-188 | from getting the permit to its end an adopt that fails or finds nothing new leaves the history as it was, and one that swaps adds one generation with the fingerprint it reports |
| `SnapshotSwap.FailedAdoptChangesNothing` | host/src/services/snapshot-coordinator.ts:111-170 | whatever interleaves, a failed or unchanged adopt leaves the same generation live |
| `SnapshotWatch.SteadyExactly` | host/src/services/snapshot-watch.ts:25-28 | the delay stays between interval and cap and never shrinks with more failures, exactly when the interval is within the cap; beyond it, and only there, the first failure shortens the delay |
| `SnapshotWatch.BackoffDoubles` | host/src/services/snapshot-watch.ts:25-28 | the first failure keeps the interval and every further one doubles the delay, both up to the cap |
| `SnapshotWatch.CapReached` | host/src/services/snapshot-watch.ts:25-28 | with an interval of a millisecond or more the cap is reached by the twentieth failure |
| `SnapshotWatch.Watch.RunTick` | host/src/services/snapshot-watch.ts:92-144 | a tick attempts a pointer that differs from what it captured when it began, and remembers it only after a successful adopt; otherwise it writes back what it captured |
| `SnapshotWatch.Watch.Turn` | host/src/services/snapshot-watch.ts:367-385 | a turn of the loop sleeps for the back-off and updates the counter |
| `SnapshotWatch.LastSeenIsLastAdopted` | host/src/services/snapshot-watch.ts:311-328 | in every run `lastSeen` is always the fingerprint of the last pointer adopted, unset until there is one, exactly if no tick that adopts nothing ends after another pointer was adopted while it ran |
| `SnapshotWatch.OneAfterTheOther` | host/src/services/snapshot-watch.ts:311-328 | ticks that come one after the other, as the loop's do, are undisturbed |
| `SnapshotWatch.LastSeenWasAdopted` | host/src/services/snapshot-watch.ts:311-328 | whatever ticks overlap, `lastSeen` is unset or a fingerprint that was adopted at some time |
| `SnapshotWatch.OverlapForgets` | host/src/services/snapshot-watch.ts:311-328 | a tick that ends without an adopt makes `lastSeen` forget a pointer adopted while it ran |
| `SnapshotWatch.FailingPointerIsRetried` | host/src/services/snapshot-watch.ts:109-132 | a pointer that failed is attempted again by every later tick that meets it, until it has been adopted, if the ticks before were undisturbed in that sense |
| `SnapshotWatch.AdoptedIsNotRepeated` | host/src/services/snapshot-watch.ts:109-143 | an adopted pointer is not attempted again by later ticks before another one is adopted, if the ticks before were undisturbed |
| `SnapshotWatch.CounterCounts` | host/src/services/snapshot-watch.ts:369-383 | whatever ticks overlap, the counter is the number of failed adopts since the loop's last clean or swapped tick; unreachable pointers neither count nor reset |
| `PruneModules.ComputeKeepSet` | scripts/prune-runtime-node-modules.ts:84-110 | popping from the queue terminates with the least set of installed packages that holds the installed seeds and is closed under dependencies |
| `PruneModules.InstalledHere` | scripts/prune-runtime-node-modules.ts:104-105 | the installed names are the names at which a package.json is found |
| `PruneModules.PlatformFits` | scripts/prune-runtime-node-modules.ts:45-56 | a package fits exactly when no list it declares excludes the platform and, without a declared libc, its name does not claim the other one |
| `PruneModules.NodeModules.PruneScope` | scripts/prune-runtime-node-modules.ts:132-140 | in a scope exactly the unkept and mismatched packages go, and the scope if nothing is left |
| `PruneModules.NodeModules.Prune` | scripts/prune-runtime-node-modules.ts:112-144 | exactly the entries that are not hidden and are unkept or mismatched are removed, and reported |
| `PruneModules.PruneLeavesNeeds` | scripts/prune-runtime-node-modules.ts:84-144 | pruned by its own keep set, the tree holds exactly the runtime needs that fit the platform, besides hidden entries, and no empty scope |
| `BundleKeys.DottedExactly` | apps/upload/src/storage.ts:97-102 | the scanner for accounts and gateways accepts exactly one label, or several with a dot between them |
| `BundleKeys.DottedHasNoTwoDots` | apps/upload/src/storage.ts:97-111 | the separate test for two dots never decides for accounts and gateways |
| `BundleKeys.ValidHasNoSlash` | apps/upload/src/storage.ts:104-112 | a validated part has no slash |
| `BundleKeys.PathAccepted` | apps/upload/src/storage.ts:114-121 | an accepted path is returned as given and has no empty, dotted or percent segment anywhere |
| `BundleKeys.KeyPrefix` | apps/upload/src/storage.ts:123-130 | a key is a prefix of another exactly when the namespaces are the same and the path is a prefix |
| `BundleKeys.KeyInjective` | apps/upload/src/storage.ts:123-130 | validated namespaces and paths have the same key only if they are the same |
| `BundleKeys.ListingIsOneNamespace` | apps/upload/src/index.ts:254-256 | the listing prefix matches exactly the keys of the namespace asked for |
| `BundleStore.MemoryStorage.Put` | apps/upload/src/storage.ts:151-159 | storing replaces one key and keeps the others and their order |
| `BundleStore.MemoryStorage.List` | apps/upload/src/storage.ts:175-196 | the in-memory listing is the first ten thousand matching keys in order, truncated when there are more |
| `BundleStore.ListedAre` | apps/upload/src/storage.ts:175-196 | a listing shows keys under the prefix only, each once and in order, and all of them unless it says otherwise |
| `BundleStore.S3List` | apps/upload/src/storage.ts:387-408 | against any sizes of pages the paging loop terminates with the same listing |
| `BundleUpload.DecodeFiles` | apps/upload/src/index.ts:136-161 | the first file with a bad path or no contents decides the error |
| `BundleUpload.StoreAll` | apps/upload/src/index.ts:173-214 | whatever the order of steps and failures, only the namespace changes, and without a failed put every file is counted once as stored or unchanged and is in the store; with distinct paths exactly those files are stored whose object differed or whose stat failed |
| `BundleUpload.Upload` | apps/upload/src/index.ts:128-222 | a request is turned down exactly for the checked reasons and then changes nothing; it fails in the store exactly when a put fails; on success the counts add up, every file's object is stored with the integrity reported for its path, and where everything was there before as many files are stored as stats failed |
| `BundleUpload.OtherNamespacesUntouched` | apps/upload/src/index.ts:179-208 | an upload, even a failing one, leaves the objects of every other namespace as they were |
| `BundleUpload.UploadTwice` | apps/upload/src/index.ts:187-191 | after a successful upload, whatever failed during it, a repeat stores one file for each of its own stats that fails; it succeeds and stores nothing exactly when none does |
| `Reconciler.Reconciler.Attempted` | api/src/lib/reconciler.ts:163-248 | an attempt that stops at its first failure has changed at most the fingerprint last seen |
| `Reconciler.Reconciler.ReconcileNamespace` | api/src/lib/reconciler.ts:162-259 | an attempt changes only its own namespace, to the specified state |
| `Reconciler.Reconciler.Tick` | api/src/lib/reconciler.ts:261-266 | a tick makes one attempt for each watched namespace, reports what each came to, and touches no other |
| `Reconciler.Reconciler.Ticks` | api/src/lib/reconciler.ts:261-266 | over any number of ticks each watched namespace goes through the run of its own attempts, with the events of that run |
| `Reconciler.ConvergedMoves` | api/src/lib/reconciler.ts:177-239 | the converged fingerprint moves only to the one read in the attempt, after a baseline or a successful deploy |
| `Reconciler.DriftMeansFailed` | api/src/lib/reconciler.ts:249-259 | drift is on record after an attempt exactly when it failed |
| `Reconciler.DeploysDoNotRepeat` | api/src/lib/reconciler.ts:57-69 | successive deploys never repeat a fingerprint, and a baseline comes at most once and first |
| `Reconciler.StableMeansQuiet` | api/src/lib/reconciler.ts:57-69 | while one fingerprint is read, no attempt after one that succeeded deploys again |
| `Reconciler.StableFingerprint` | api/src/lib/reconciler.ts:162-239 | with a stable fingerprint and a first tick whose effects succeed, no later tick deploys |
| `Reconciler.FailureIsRetried` | api/src/lib/reconciler.ts:249-259 | a failed convergence is carried out by the next attempt with the same fingerprint whose effects succeed |

## Left out

- UTF-8: the nonce normalizer works on characters of a valid stream, so the bytes a decoder still holds at the flush (which precede the pending text there) do not occur.
- Nonces with `$`: the escaping for replacement strings (host/src/services/nonce-normalizer.ts:24) does nothing to base64 text.
- Bounded buffering of the nonce stream: everything from the last complete bootstrap prefix stays pending until a later one arrives or the stream ends.
- Numbers in canonical texts, and the schema check of the composed manifest.
- Cryptography: signatures, SHA-256, Keccak and base58 are not modelled; injectivity is stated on the bytes before hashing.
- AccountHandlers.Tables.Link: the handler is one step, so two requests for one account do not race; the database constraint that settles such a race (packages/better-near-auth/src/passkey-wallet-link.ts:105-120) is not modelled.
- `createSubAccount`, which adds a non-primary row for a user who may have no primary.
- Public keys, profiles, sessions and e-mail addresses of users; the relayer that is set up on sign-in.
- On-chain totals of gas-key funding: a transfer whose recording fails is not counted by the code either.
- BindingResolver: one API URL, no `clear()`; host names and the development fallback of a lookup.
- CappedStore.Store.Increment: the entry handed out is a value; that a caller would see later counts in it is not modelled.
- McpSchema.BuildToolInputSchema: property names that JavaScript objects inherit or reorder (`__proto__`, integer-like keys) and the `in` operator's view of inherited names.
- SnapshotSwap: deriving configurations, composing the UI and writing the boot snapshot are outcomes; an interrupted adopt is not modelled.
- SnapshotWatch: verifying the current entries only logs; floating-point overflow of the doubled interval, which the cap absorbs.
- PruneModules.ComputeKeepSet: names with more than one slash, dots or other path tricks do not resolve to a package in the model.
- BundleStore.MemoryStorage.List: sizes and times of objects; one order of keys stands for `localeCompare` here and byte order in S3.
- BundleUpload.Upload: authorisation, base64 decoding, content types and cache headers; no other writer changes the bucket during an upload.
- Reconciler: timestamps, instance names and the descriptor that is deployed; distinct namespaces have distinct keys.
- Secrets listing, shared-dependency merging, the tenant configuration merge, retry loops and the user interface, which would add only easy members.
