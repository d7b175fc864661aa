# Verified models of the API's protocols and maintenance tools

This project models the parts of the repository whose correctness rests on an argument rather than on
one function body, and proves what they promise: the legacy storage migration, the encrypted database
backup and the consistent cut, coupon matching and apportionment, session rotation and refresh, the
idle connection pool, the rate limiter, the storage policies, user dispositions, the local account life
cycle and the migration runner. `dafny verify dfyconfig.toml` checks everything.

Code that computes is modelled by functions, code that updates state step by step by classes and
methods with loops, and code whose correctness depends on interleaving by a state machine over its
steps. Each method is proved against a function or relation, and the promises are lemmas about those.

| file | models |
|---|---|
| `LegacyPlans`, `LegacyPairs`, `LegacySwap`, `LegacySwapLaws`, `LegacyManifests` | classification, plans, tombstone pairs, the all-or-nothing reference swap, what it guarantees, and when it goes through in the columns of the database |
| `LegacyReferences`, `LegacyMigration`, `LegacyApply`, `LegacyOutcomes` | what a swap does to references, the copy-then-swap protocol with crashes and concurrent attempts, one undisturbed apply or rollback and exactly when it passes |
| `Base64`, `Json`, `Envelope`, `EnvelopeOpening` | the envelope text, its exact size, encryption and decryption, and which envelopes open |
| `DatabaseBackup`, `DatabaseCapture`, `IndexSize`, `DatabaseCut`, `CutNames` | putting and restoring parts, the chunk loop, the size of the index, the whole cut, object names |
| `CutManifest`, `CutOutcomes` | the consistent cut and its manifest, when it passes and what a manifest tells |
| `CouponAllocation`, `CouponMatching`, `CouponOutcomes` | largest-remainder apportionment, rule selection, resolution, and exactly when which rule is applied |
| `LocalSessions`, `RefreshOutcomes` | token rotation in any interleaving, and how one refresh, touch or log-out ends |
| `ProviderRefresh`, `RefreshAnswers` | overlapping refreshes, and what their answers tell |
| `LocalAccount`, `AccountOutcomes` | setup and recovery, and how long tokens and onboarding sessions serve |
| `IdlePool`, `IdleTimer`, `RateLimiter` | leases, close barrier and drain; when the timer is armed and who may start; fixed windows |
| `StoragePolicy`, `UserDisposition`, `DispositionOutcomes`, `MigrationRunner` | policy apply and rollback, account commands and exactly when they apply, classification and journal |
| `Outcomes`, `Text`, `Octets`, `Sorting`, `Sums`, `Traversal` | shared vocabulary |

## Environment

- The database clock never goes back. A single SQL statement is atomic, except that the limiter's call reads its
  clock and writes its bucket in two steps; bucket clean-ups may go by any clock. A transaction that fails
  leaves no trace; an advisory lock is held until its transaction ends.
- Object stores return what was put and refuse to overwrite; nobody outside the model deletes an object,
  and nobody but the migration writes a reference into the `legacy/` name space.
- The cipher inverts itself under the same key, nonce and associated data; `EnvelopeOpening` also uses that
  deciphering accepts only what enciphering gives, as AES-GCM does. SHA-256 is a function; where an
  argument needs that two contents with one digest are equal, the lemma says so for those contents.
  HMACs are compared for equality only.
- `localeCompare` is some total order on strings. Money and weights are exact integers.
- Manifests reach the migration through `exactMigrationPlan`
  (apps/api/maintenance/legacy/legacy.cli.ts:221-237), so their plans are the ones
  `createLegacyMigrationPlan` makes. Account entries have passed `validateDispositionInput`.

## Findings

Each is a property that fails, with the condition under which it holds, proved in both directions.

- `shutdown` of the idle pool keeps one resolve function only. With two callers draining, the first one
  never settles (`IdlePool.SecondCallerLosesTheFirst`). At the end of any run someone is lost exactly when two
  callers drained at once in some state of it (`IdlePool.LostExactlyWhenTwoDrain`).
- A log-out takes no advisory lock, so a provider refresh that has already read the row still succeeds after
  it, in whichever of its four phases it is (`ProviderRefresh.LogoutDoesNotStopAdmittedRefresh`). A revoked session
  can still be refreshed exactly when one refresh is past its read
  (`ProviderRefresh.SuccessAfterRevocationExactly`), and then at most once.
- `recover` reads the account before it writes and `completeInitialPassword` does not take its lock. If the first
  password is set in between and the recovery then writes, the account is invited with a credential and
  recovery is refused. An account is recoverable exactly when this has not happened since its last first
  password (`LocalAccount.RecoverableExactly`). The setup token the recovery issued mends it; once no token and no
  onboarding session is left, it is refused for ever (`LocalAccount.MendableExactly`,
  `LocalAccount.LockedOutForever`).
- A limiter call reads its clock before it writes. A clean-up past the end of its window that comes in between
  removes the bucket, and a call over the limit is allowed (`RateLimiter.OvertakenCallIsAllowed`). A decision is the
  ideal one exactly when no such clean-up overtook the call, or the calls since then are over the limit
  anyway (`RateLimiter.DecidedIdeallyExactly`). The maintenance service cleans up by the host's clock; if that
  is ahead, no call is safe (`RateLimiter.DecisionExactly` covers clean-ups by any clock). So the limiter can let more
  than `limit` calls of a window through (`RateLimiter.OvertakenRunExceedsLimit`). It allows exactly the smaller of
  calls and limit if and only if no more than `limit` calls were made or no overtaken call was written
  (`RateLimiter.RunAllowsLimitExactly`; `RateLimiter.TableAllowsLimitExactly` for clean-ups by any clock).
- Two plans for one row whose identifiers differ in letter case only are not duplicates to `casManifest`, and
  reach CAS_MISS (`LegacySwapLaws.CaseVariantsMiss`). A swap of proper plans on its starting side goes through exactly
  when no two plans mean one row and the unique index on provider and trash key has room
  (`LegacyManifests.SwapGoesThroughExactly`).
- The 512-character default of `asStrictString` limits a backup locator to 195 bytes. Destination identifiers of
  124 to 128 characters are admitted by the manifest, but no capture under them ever returns
  (`CutNames.DestinationLimit`, `CutNames.LongDestinationNeverCaptured`).
- If the reply to a policy apply is lost and the rollback request is refused, the plan stays in force; and a
  rollback re-creates a restrictive managed policy as a permissive one, which no inventory shows. A failed execution
  that wrote leaves the table as before exactly when both requests were refused, or when no managed policy was
  restrictive and the plan was not left in force or was there already (`StoragePolicy.UnharmedExactly`).
- The policy preconditions look for client roles by name. A browser role gets through exactly by an unmanaged
  policy granted to everybody or to a role it acts as (`StoragePolicy.BrowserAccessExactly`).
- Repeating an applied DISABLE is UNCHANGED exactly if the entry names the role the user has; otherwise it is
  refused with AUTH_DB_CAS_MISMATCH (`UserDisposition.RepeatedDisable`).

## Model

| member | source | states |
|---|---|---|
| LegacyPlans.EligibleIsLocal | apps/api/maintenance/legacy/reference-inventory.ts:492-549 | a reference classified as migratable never has a value tagged `supabase:` nor a declared provider other than `local` |
| LegacyPlans.CreatedPlanWellFormed | apps/api/maintenance/legacy/reference-inventory.ts:108-142 | every plan made from an inventoried reference has a UUID, a digest, a size within the limit, the target key of its identity and content, and a source outside the target store |
| LegacyPlans.MigratableExactly | apps/api/maintenance/legacy/reference-inventory.ts:492-549 | a reference is migratable if and only if it is not declared to be elsewhere, lies in an approved root and has a safe key: what follows its `local:` tag, its path below the root, or its value |
| LegacyPlans.PlanCreatedExactly | apps/api/maintenance/legacy/reference-inventory.ts:108-122 | a plan is made if and only if the reference is migratable, its row is settled and not missing, and the source has a digest, a size within 24 MiB and what the database expects |
| LegacyPlans.PlanIsOfItsReference | apps/api/maintenance/legacy/reference-inventory.ts:124-142 | the plan carries the value, status and provider of its own reference, its own root and key, and the digest and size of its source |
| LegacyPlans.OriginalAndDesiredDisjoint | apps/api/maintenance/legacy/reference-inventory.ts:603-606 | for a well-formed plan no reference is both as planned from and as planned to |
| LegacyPlans.TargetKeysDistinct | apps/api/maintenance/legacy/reference-inventory.ts:124-126 | equal target keys mean equal model, record, field and digest |
| LegacyPairs.PairLegacyTombstonePlans | apps/api/maintenance/legacy/reference-inventory.ts:294-317 | the grouping loop and the collated traversal compute the pairing function, failures included |
| LegacyPairs.GroupByRecord | apps/api/maintenance/legacy/reference-inventory.ts:295-300 | the map of groups holds, per record in order of first appearance, exactly its tombstone plans in manifest order |
| LegacyPairs.PairingPartitions | apps/api/maintenance/legacy/reference-inventory.ts:301-316 | a successful pairing partitions the tombstone plans into one matching original/trash pair per record |
| LegacyPairs.PairingFailsExactly | apps/api/maintenance/legacy/reference-inventory.ts:304-309 | pairing fails if and only if some record with a tombstone plan has no complete matching pair |
| LegacyPairs.PairIsUnique | apps/api/maintenance/legacy/reference-inventory.ts:294-317 | no plan lies in two pairs |
| LegacySwap.Database.UpdateRegularReference | apps/api/maintenance/legacy/direct-provider.ts:647-672 | one row changes, in its value only, exactly when it stands at the expected value and status |
| LegacySwap.Database.UpdateTombstonePair | apps/api/maintenance/legacy/direct-provider.ts:674-722 | both keys and the provider move together, exactly when all four columns stand as expected and no other row has the new provider and trash key |
| LegacySwap.Database.ReadManifestSnapshot | apps/api/maintenance/legacy/direct-provider.ts:614-625 | the snapshot loops read every row of the manifest in order or give the first failure |
| LegacySwap.Database.UpdateOrdinary | apps/api/maintenance/legacy/direct-provider.ts:599-601 | the loop makes the updates in order up to the first that misses |
| LegacySwapLaws.UpdatesExactly | apps/api/maintenance/legacy/direct-provider.ts:599-601 | from an all-expected state the updates of proper plans go through exactly when no two plans mean one row, and then move every ordinary row of the manifest and no other |
| LegacySwap.Database.UpdatePairs | apps/api/maintenance/legacy/direct-provider.ts:602-604 | the same loop over pairs, up to the first that misses or violates the unique index |
| LegacySwapLaws.PairUpdatesExactly | apps/api/maintenance/legacy/direct-provider.ts:602-604 | the pair updates go through exactly when no two pairs mean one row and no row outside and no earlier pair has the new index columns |
| LegacySwap.Database.Swap | apps/api/maintenance/legacy/direct-provider.ts:599-610 | update, read again and check; UPDATED only with exactly the manifest moved |
| LegacySwap.Database.Transact | apps/api/maintenance/legacy/direct-provider.ts:588-611 | the transaction returns what the snapshot, the updates and the closing check decide; a result other than UPDATED comes from no change or is undone |
| LegacySwap.Database.CasManifest | apps/api/maintenance/legacy/direct-provider.ts:579-612 | the whole swap of any plans is one step of the relation CasStep: result by the state before, exact change of the rows the manifest means, otherwise no change |
| LegacySwap.SnapshotSpec | apps/api/maintenance/legacy/direct-provider.ts:627-645 | a snapshot succeeds exactly when all rows exist and matches a side exactly when all rows are on it |
| LegacySwapLaws.SwapExactly | apps/api/maintenance/legacy/direct-provider.ts:599-610 | from the starting side the writing part succeeds exactly when unobstructed and else reports a miss or a taken index; VERIFY_FAILED cannot occur |
| LegacySwapLaws.CasResultExact | apps/api/maintenance/legacy/direct-provider.ts:579-612 | for proper plans: success exactly on the far side or on the starting side unobstructed, MIXED_STATE exactly when present and on neither side, a miss or a taken index exactly when obstructed |
| LegacySwapLaws.SwapAllOrNothing | apps/api/maintenance/legacy/direct-provider.ts:588-612 | a failed swap changes nothing, a successful one leaves the whole manifest on the new side, and no row appears or disappears |
| LegacySwapLaws.ThereAndBack | apps/api/maintenance/legacy/direct-provider.ts:579-612 | under the unique index, swapping forward and back, or back and forward, always goes through and restores every row |
| LegacySwapLaws.CaseVariantsMiss | apps/api/maintenance/legacy/direct-provider.ts:585-586 | two plans for one row that differ in letter case only pass the duplicate test and end in CAS_MISS |
| LegacySwapLaws.LowerCaseKeepsRowsApart | apps/api/maintenance/legacy/direct-provider.ts:585-586 | with identifiers in lower case no two plans of an accepted manifest mean one row |
| LegacySwapLaws.RepeatIsIdle | apps/api/maintenance/legacy/direct-provider.ts:591-597 | repeating a successful swap reports it as done and changes nothing |
| LegacyManifests.PairingExactly | apps/api/maintenance/legacy/reference-inventory.ts:294-317 | plans without duplicates pair up if and only if every tombstone plan has a partner: the other key of its record, with equal status and provider and different values and keys |
| LegacyManifests.ManifestAtExactly | apps/api/maintenance/legacy/direct-provider.ts:627-645 | an accepted manifest is on a side if and only if each plan finds its own columns there, with `storedFilePath` for the three batch models and `filePath` for exports written out |
| LegacyManifests.SwapGoesThroughExactly | apps/api/maintenance/legacy/direct-provider.ts:579-612 | a swap of proper plans is UPDATED if and only if there are plans and no duplicates, all partners are there, every plan finds its own columns on the starting side, and nothing obstructs the updates |
| LegacyManifests.OrdinarySwapExactly | apps/api/maintenance/legacy/direct-provider.ts:579-612 | without tombstone plans it is UPDATED if and only if every plan finds its own columns on the starting side and no two plans mean one row |
| LegacyManifests.FieldRefusedExactly | apps/api/maintenance/legacy/direct-provider.ts:792-799 | a manifest is refused for its fields if and only if reading it stops at an ordinary plan whose field is not its model's |
| LegacyManifests.SwapWritesExactly | apps/api/maintenance/legacy/direct-provider.ts:647-722 | after UPDATED every plan's own value, provider and status have gone from one side to the other and no other column of its row has changed |
| LegacyManifests.SwapLeavesOthers | apps/api/maintenance/legacy/direct-provider.ts:647-722 | after UPDATED every row that no plan names is as before |
| LegacyReferences.SwapEffect | apps/api/maintenance/legacy/direct-provider.ts:599-604 | a slot refers to a migrated object after a swap only if it did before or a plan of a forward swap that reports UPDATED put exactly that object there |
| LegacyReferences.SideHolds | apps/api/maintenance/legacy/direct-provider.ts:627-645 | on the desired side every plan's slot names the plan's object, on the original side it names none |
| LegacyMigration.StepKeepsInv | apps/api/maintenance/legacy/reference-inventory.ts:235-292 | every step of every attempt, crash, source change and foreign write keeps the invariant and never changes an existing object |
| LegacyMigration.ExecutionKeepsInv | apps/api/maintenance/legacy/reference-inventory.ts:235-292 | the same over whole executions |
| LegacyMigration.ReferencesAlwaysBacked | apps/api/maintenance/legacy/reference-inventory.ts:235-269 | in every reachable state each migrated reference names an object matching digest and size of a plan of a forward swap that went through and put it there |
| LegacyMigration.MigratedValueNamesItsContent | apps/api/maintenance/legacy/reference-inventory.ts:580-584 | the same for any plan whose migrated value stands in its row: the object is the planned content |
| LegacyMigration.SwapIsVerified | apps/api/maintenance/legacy/reference-inventory.ts:241-256 | an attempt that reaches the swap has all its targets verified, and they still are |
| LegacyMigration.OnlyVerifiedSwapsMigrate | apps/api/maintenance/legacy/reference-inventory.ts:256-260 | a reference becomes migrated only by an UPDATED forward swap whose targets are all verified |
| LegacyMigration.SuccessMigratesAll | apps/api/maintenance/legacy/reference-inventory.ts:257-262 | a successful forward swap leaves every plan's reference on a verified object |
| LegacyMigration.AttemptsKeepReady | apps/api/maintenance/legacy/reference-inventory.ts:235-292 | no step of any attempt at a manifest, forward or back, finished or crashed, spoils its applicability |
| LegacyMigration.RetryAlwaysPossible | apps/api/maintenance/legacy/reference-inventory.ts:235-292 | the same over whole executions of such attempts |
| LegacyApply.Stores.CopyNoOverwrite | apps/api/maintenance/legacy/reference-inventory.ts:457-470 | a copy succeeds exactly for a plan in scope with a matching source and an absent target, and puts exactly the source |
| LegacyApply.Stores.EnsureTarget | apps/api/maintenance/legacy/reference-inventory.ts:241-255 | a target ends up verified exactly when it was right or could be copied |
| LegacyApply.Stores.EnsureTargets | apps/api/maintenance/legacy/reference-inventory.ts:241-256 | the loop verifies all targets exactly when each is right or copyable; it only adds objects of the manifest |
| LegacyApply.Stores.ApplyManifest | apps/api/maintenance/legacy/reference-inventory.ts:235-269 | an undisturbed apply passes if and only if the manifest is accepted and in scope, every target is right or copyable and the rows are on one side; otherwise no row changes |
| LegacyApply.Stores.CheckSources | apps/api/maintenance/legacy/direct-provider.ts:360-386 | every source is inside an approved root and matches, or the first failure is given |
| LegacyApply.Stores.RollbackManifest | apps/api/maintenance/legacy/reference-inventory.ts:271-292 | a rollback passes if and only if the manifest is accepted, all sources are readable in the approved roots and match, and the swap back succeeds; then every reference is original |
| LegacyOutcomes.ApplyPassesExactly | apps/api/maintenance/legacy/reference-inventory.ts:235-269 | the pass condition of an apply in the contents of the stores and the columns of the database: 1 to 1000000 different, paired plans, each in scope with its content at the target or free to be copied, and rows that are all on the new side, or all on the old one and unobstructed |
| LegacyOutcomes.RollbackPassesExactly | apps/api/maintenance/legacy/reference-inventory.ts:271-292 | the same for a rollback: every source in scope and unchanged, and the rows can go back |
| LegacyApply.AssertManifestPlanSet | apps/api/maintenance/legacy/reference-inventory.ts:319-336 | the identity loop accepts exactly non-empty, duplicate-free, pairable plan sets within the limits |
| Base64.Encode | apps/api/maintenance/backup/direct-provider.ts:1545-1550 | the encoding of n bytes has 4*ceil(n/3) characters (section 4 of RFC 4648) |
| Base64.DecodeEncode | apps/api/maintenance/backup/direct-provider.ts:1545-1550 | decoding inverts encoding |
| Base64.StrictExact | apps/api/maintenance/backup/direct-provider.ts:1545-1550 | the strict reader accepts exactly the encodings of non-empty byte strings of the expected size |
| Json.ObjectSize | apps/api/maintenance/shared/strict-json.ts:94-96 | the UTF-8 size of an object's text is its braces, commas and escaped members |
| Envelope.AadBytes | apps/api/maintenance/backup/direct-provider.ts:369 | the associated data takes 189 bytes beside the escaped locator |
| Envelope.AadFits | apps/api/maintenance/shared/strict-json.ts:63-74 | its base64 fits 512 characters if and only if the locator takes at most 195 bytes |
| Envelope.CapNeverExceeded | apps/api/maintenance/backup/direct-provider.ts:49-69 | an envelope is never larger than 4*ceil(n/3) plus 256 KiB, whatever the locator |
| Envelope.DecryptEncrypt | apps/api/maintenance/backup/direct-provider.ts:356-427 | decryption of an envelope just made gives the plaintext if it is non-empty and the locator takes at most 195 bytes, and BACKUP_ENVELOPE_INVALID otherwise |
| EnvelopeOpening.UnsealExactly | apps/api/maintenance/backup/direct-provider.ts:388-427 | a sealed record opens to a content if and only if it is the record encryption makes of that non-empty content for its own cut and place under this key and key name, up to the base64 spelling of the associated data |
| EnvelopeOpening.OpenedTells | apps/api/maintenance/backup/direct-provider.ts:388-427 | an envelope that opens has the version, algorithm and key name of its reader and the digest and size of what it opens to |
| DatabaseBackup.MakeVaultUsable | apps/api/maintenance/backup/direct-provider.ts:356-427 | the envelope functions under a 32-byte key satisfy everything the backup relies on |
| DatabaseBackup.BackupStore.PutEncrypted | apps/api/maintenance/backup/direct-provider.ts:629-654 | a put succeeds exactly with a new nonce, a free locator and a readable envelope within its cap; then the object opens to the plaintext; verify exits cannot occur |
| DatabaseBackup.DeliverParts | apps/api/maintenance/backup/direct-provider.ts:468-488 | the loop delivers the parts in order, hashing and counting exactly what it delivers, up to the first failure |
| DatabaseBackup.RestoreDatabaseDump | apps/api/maintenance/backup/direct-provider.ts:447-494 | the restore returns exactly when the specified restore does, having delivered its chunks |
| DatabaseCapture.CapturePart | apps/api/maintenance/backup/direct-provider.ts:712-724 | one part is stored with an index entry that describes it exactly |
| DatabaseCapture.CaptureParts | apps/api/maintenance/backup/direct-provider.ts:699-729 | the chunk loop ends for any short reads; on success the stored chunks concatenate to the dump; with nothing in the way it succeeds exactly when the dump is read in at most 512 parts |
| IndexSize.IndexFits | apps/api/maintenance/backup/direct-provider.ts:729-741 | the JSON text of an index of 512 parts with readable locators never exceeds its limit |
| DatabaseCut.StoredIndexFits | apps/api/maintenance/backup/direct-provider.ts:740-741 | so the index of what was captured always fits |
| DatabaseCut.PutIndex | apps/api/maintenance/backup/direct-provider.ts:729-749 | the index is stored exactly when it can be sealed, and describes the parts |
| DatabaseCapture.FullReadsCount | apps/api/maintenance/backup/direct-provider.ts:705-711 | with full reads the number of parts is the remaining bytes divided by the chunk size, rounded up |
| DatabaseCapture.FullReadsFit | apps/api/maintenance/backup/direct-provider.ts:50-53 | with full reads of the standard chunk every dump within the size limit takes at most 512 parts |
| DatabaseCut.CaptureDatabaseCut | apps/api/maintenance/backup/direct-provider.ts:693-749 | a capture that returns has stored everything; with nothing in the way it returns exactly for dumps of 1 byte to 8 GiB read in at most 512 parts, and with full reads of the standard chunk exactly for dumps of 1 byte to 8 GiB |
| DatabaseCut.IndexOpens | apps/api/maintenance/backup/direct-provider.ts:496-544 | the index that was written passes every check of the index parser and its binding checks |
| DatabaseCut.CaptureRestores | apps/api/maintenance/backup/direct-provider.ts:447-494 | from the return of a capture on, however the store grows, a restore succeeds and its chunks concatenate to the dump |
| DatabaseCut.RestoresExactlyIntact | apps/api/maintenance/backup/direct-provider.ts:470-494 | from whatever the store has become, a restore with the captured index succeeds if and only if every part is still exactly what was stored, and then delivers the very chunks of the dump |
| DatabaseCut.IndexServesExactly | apps/api/maintenance/backup/direct-provider.ts:460-467 | the stored index serves the restore of its own place, cut and dump digest and no other |
| DatabaseCut.RestoredTells | apps/api/maintenance/backup/direct-provider.ts:447-494 | from any store and any index, a restore that returns has delivered content of the requested digest in at most 512 parts, each of the place, size and digests its index lists |
| CutNames.LocatorsDiffer | apps/api/maintenance/backup/direct-provider.ts:712 | parts of different number have different locators |
| CutNames.DestinationLimit | apps/api/maintenance/backup/direct-provider.ts:906-912 | part names are safe, of the right kind and short enough exactly for destination identifiers of at most 123 characters |
| CutNames.ShortDestinationIsClear | apps/api/maintenance/backup/direct-provider.ts:697-712 | under a fresh prefix of such a destination nothing stands in the way of a capture |
| CutNames.LongDestinationNeverCaptured | apps/api/maintenance/backup/cut-manifest.ts:406 | no capture succeeds under a longer, though admitted, identifier |
| CutManifest.AssertObjectCoverage | apps/api/maintenance/backup/cut-manifest.ts:374-382 | the map and loop accept exactly lists in which every reference's key has a last object of equal size and digest |
| CutManifest.ObserveCut | apps/api/maintenance/backup/cut-manifest.ts:106-170 | the observations pass if and only if they are consistent, and then give exactly the specified manifest |
| CutManifest.RunConsistentBackupCut | apps/api/maintenance/backup/cut-manifest.ts:94-173 | PASS exactly for admitted input, consistent observations and a release request that succeeds; the release is requested exactly when a non-empty receipt was obtained, and its failure replaces the outcome |
| CutManifest.NormalizeIdempotent | apps/api/maintenance/backup/cut-manifest.ts:323-372 | normalisation permutes, sorts, and leaves its own result unchanged |
| CutManifest.PassedManifestParses | apps/api/maintenance/backup/cut-manifest.ts:231-273 | the manifest of a passing cut is accepted by the parser unchanged |
| CutManifest.PassIsConsistent | apps/api/maintenance/backup/cut-manifest.ts:118-137 | a passing cut saw the same watermark and the same references, each covered by a copied object of equal size and digest |
| CutManifest.DisagreementNeverPasses | apps/api/maintenance/backup/cut-manifest.ts:374-382 | two references that disagree about one key never pass |
| CutOutcomes.PassesExactly | apps/api/maintenance/backup/cut-manifest.ts:106-170 | where no copied object is listed twice, a cut passes if and only if the receipt is a digest, nothing is in flight, pending or being created, the database cut is complete, every reference is good and has an object of its key, size and digest, and neither watermark nor references have moved |
| CutOutcomes.ManifestShows | apps/api/maintenance/backup/cut-manifest.ts:140-160 | the manifest of a passing cut lists exactly what was observed, sorted, under its digests |
| CutOutcomes.ParsedManifestTells | apps/api/maintenance/backup/cut-manifest.ts:231-273 | an accepted manifest carries the digests of what it lists, the same before and after, and loses nothing it lists |
| CutOutcomes.ParsedManifestCovers | apps/api/maintenance/backup/cut-manifest.ts:231-273 | every reference of an accepted manifest is good and covered by an object it lists |
| CouponAllocation.LeftoverBound | apps/api/src/domain/cafe24-coupon-matcher.ts:362-368 | the leftover never exceeds the number of fractional quotas, so the hand-out never wraps round |
| CouponAllocation.QuotaRule | apps/api/src/domain/cafe24-coupon-matcher.ts:331-375 | each key gets the floor of its quota or one more, an exact quota exactly, and zero weight zero |
| CouponAllocation.WeightMonotone | apps/api/src/domain/cafe24-coupon-matcher.ts:331-375 | a strictly larger weight never gets less |
| CouponAllocation.UnitsConserved | apps/api/src/domain/cafe24-coupon-matcher.ts:331-375 | the units add up to the total |
| CouponAllocation.RankIsPosition | apps/api/src/domain/cafe24-coupon-matcher.ts:363-368 | the position in the remainder order is the number of entries that deserve a unit more |
| CouponAllocation.InsertionOrderFree | apps/api/src/domain/cafe24-coupon-matcher.ts:331-375 | an entry's units do not depend on the order of the entries |
| CouponAllocation.Floors | apps/api/src/domain/cafe24-coupon-matcher.ts:353-362 | the floor map and its sum |
| CouponAllocation.HandOut | apps/api/src/domain/cafe24-coupon-matcher.ts:353-368 | the hand-out loop gives every entry the units of the order-free definition |
| CouponAllocation.AllocateNonNegativeByWeight | apps/api/src/domain/cafe24-coupon-matcher.ts:331-375 | the whole operation, refusals included, gives the specified allocation |
| CouponAllocation.AllocationConserved | apps/api/src/domain/cafe24-coupon-matcher.ts:331-375 | the allocated cents add up to the amount |
| CouponOutcomes.AllocatesExactly | apps/api/src/domain/cafe24-coupon-matcher.ts:331-375 | an amount is apportioned if and only if it is known, not negative and safe to count and some weight is positive |
| CouponAllocation.WholeWonStayWhole | apps/api/src/domain/cafe24-coupon-matcher.ts:331-375 | a discount of whole won is split in whole won |
| CouponAllocation.AllocationOrderFree | apps/api/src/domain/cafe24-coupon-matcher.ts:331-375 | the allocation is the same list for every insertion order |
| CouponMatching.ComparatorIsTotalOrder | apps/api/src/domain/cafe24-coupon-matcher.ts:288-305 | the tie-break is a strict total order on rules with different identifiers |
| CouponMatching.AmountIsNearestOrGreatest | apps/api/src/domain/cafe24-coupon-matcher.ts:257-285 | the amount is the nearest within tolerance, larger on a tie, else the greatest plausible one, and none exactly when none is plausible |
| CouponMatching.SelectedRuleIsLeast | apps/api/src/domain/cafe24-coupon-matcher.ts:257-285 | the rule precedes every other candidate of its amount |
| CouponMatching.BasesCorrect | apps/api/src/domain/cafe24-coupon-matcher.ts:315-326 | every product of the order appears once with the sum over its lines |
| CouponMatching.AllocateCoupon | apps/api/src/domain/cafe24-coupon-matcher.ts:307-329 | the accumulating loop splits the coupon as specified |
| CouponMatching.SplitConserved | apps/api/src/domain/cafe24-coupon-matcher.ts:307-329 | a split adds up to the discount and reaches only products of the order |
| CouponMatching.SplitLineOrderFree | apps/api/src/domain/cafe24-coupon-matcher.ts:307-329 | the split does not depend on the order of the lines |
| CouponMatching.ResolutionRuleOrderFree | apps/api/src/domain/cafe24-coupon-matcher.ts:134-183 | the resolution depends on the set of rules only |
| CouponMatching.AppliedResolution | apps/api/src/domain/cafe24-coupon-matcher.ts:67-183 | an applied result is an estimate exactly when the ignored residual is reported, stays within the gap and conserves the deduction; any other result deducts nothing |
| CouponOutcomes.OpensExactly | apps/api/src/domain/cafe24-coupon-matcher.ts:86-132 | the rules are looked at if and only if a line names the coupon, all lines are valid, of one day, with a product and totals that agree within one won, and the order total exceeds what was paid; the gap is their difference |
| CouponOutcomes.SelectionExactly | apps/api/src/domain/cafe24-coupon-matcher.ts:241-305 | something is selected if and only if a rule in force (active, positive, in its dates, for the whole order or one of its products) is at most one won above the gap, and it is the best one: nearest within one won, else the largest below, then product scope, priority number, later beginning, later creation, identifier |
| CouponOutcomes.AppliedExactly | apps/api/src/domain/cafe24-coupon-matcher.ts:67-183 | a coupon is APPLIED if and only if the order is complete and underpaid and its best rule can be split; the rule is that one and the gap is order total less paid total |
| CouponOutcomes.UnappliedExactly | apps/api/src/domain/cafe24-coupon-matcher.ts:134-163 | an underpaid order is told NO_ACTIVE_COUPON_RULE exactly without a rule in force and NO_PLAUSIBLE_COUPON_AMOUNT exactly if all of those are too high |
| CouponOutcomes.PaidInFull | apps/api/src/domain/cafe24-coupon-matcher.ts:114-120 | a complete order that was paid in full or more is told NON_POSITIVE_GAP with its gap |
| CouponOutcomes.NoCouponExactly | apps/api/src/domain/cafe24-coupon-matcher.ts:80-93 | NO_COUPON exactly if no line names the coupon |
| CouponOutcomes.TieToldExactly | apps/api/src/domain/cafe24-coupon-matcher.ts:147-150 | a tie is reported exactly if another rule in force grants the same amount |
| LocalSessions.SessionTable.TouchSession | apps/api/src/auth/local-auth.service.ts:98-122 | the authentication statement touches exactly the accepted row and never extends it past its absolute expiry |
| LocalSessions.SessionTable.RotateToken | apps/api/src/auth/local-auth.service.ts:148-164 | the rotation statement exchanges exactly the current token of a live row |
| LocalSessions.SessionTable.RevokeSession | apps/api/src/auth/local-auth.service.ts:319-324 | afterwards no token of the family is accepted at any time, and every other family accepts exactly what it did |
| LocalSessions.SessionTable.Issue | apps/api/src/auth/local-auth.service.ts:296-317 | the new family accepts exactly its one token, until the nearer of its expiries, and every other family what it did |
| LocalSessions.StepKeepsInv | apps/api/src/auth/local-auth.service.ts:98-183 | every statement of every interleaving keeps the token lineage and the expiry bounds |
| LocalSessions.ExecutionKeepsInv | apps/api/src/auth/local-auth.service.ts:98-183 | the same over whole executions |
| LocalSessions.RotationIsLinear | apps/api/src/auth/local-auth.service.ts:139-166 | a token is exchanged at most once, always for the next generation of its family |
| LocalSessions.SupersededTokenAccepted | apps/api/src/auth/local-auth.service.ts:109-116 | a superseded token is accepted for refresh if and only if it is the direct predecessor of a live session within the 5-second grace, and never otherwise |
| LocalSessions.RetryOnlyWhenTimely | apps/api/src/auth/local-auth.service.ts:164 | a retry answer goes only to a request that presented the current token or its predecessor in the grace |
| LocalSessions.StaleTokenRevokesFamily | apps/api/src/auth/local-auth.service.ts:139-147 | a superseded token that is not the direct predecessor inside the grace is refused, and however other requests interleave its family is revoked once the request finishes, in every continuation |
| LocalSessions.RevocationIsPermanent | apps/api/src/auth/local-auth.service.ts:98-183 | revocation is permanent and ends rotation; the idle expiry never passes the fixed absolute expiry |
| RefreshOutcomes.RefreshDecided | apps/api/src/auth/local-auth.service.ts:139-166 | an undisturbed refresh is exchanged exactly for the current token of an unrevoked, unexpired session whose user is active with the fitting status, told to retry exactly for a token superseded there less than five seconds ago, and refused otherwise |
| RefreshOutcomes.ExchangeEffect | apps/api/src/auth/local-auth.service.ts:148-166 | after an exchange the new token is accepted until the nearer expiry, the old one for refresh only and for five seconds at most, and other families are unchanged |
| RefreshOutcomes.RefusalEffect | apps/api/src/auth/local-auth.service.ts:139-147 | after a refusal of a token with its proof the family accepts nothing, and other families are unchanged |
| RefreshOutcomes.RotationAnswered | apps/api/src/auth/local-auth.service.ts:148-164 | in every interleaving a checked request is exchanged exactly if its token is still current and the session neither revoked nor past its absolute expiry; otherwise it is told to retry and nothing changes |
| RefreshOutcomes.IssuedServes | apps/api/src/auth/local-auth.service.ts:296-317 | a new session serves its token exactly if its user is active with the status of its kind of session |
| RefreshOutcomes.TouchCarries | apps/api/src/auth/local-auth.service.ts:98-122 | an accepted touch carries the session to the idle lifetime from now but not past its absolute expiry |
| RefreshOutcomes.RefreshCarries | apps/api/src/auth/local-auth.service.ts:98-166 | so does a refresh that is not refused, and only an exchange changes the current token |
| RefreshOutcomes.TouchRefused | apps/api/src/auth/local-auth.service.ts:98-122 | authentication accepts exactly the current token of an open session and otherwise touches nothing |
| RefreshOutcomes.LogOutCloses | apps/api/src/auth/local-auth.service.ts:168-183 | a log-out closes exactly the token's family if it carries its proof, and else exactly the rows that still know the token |
| ProviderRefresh.StepKeepsInv | apps/api/src/auth/auth.service.ts:179-252 | every step of overlapping refreshes keeps the lock and clock discipline |
| ProviderRefresh.SuccessesNeverOverlap | apps/api/src/auth/auth.service.ts:179-252 | in every interleaving the intervals from request clock to committed refresh time are pairwise disjoint |
| ProviderRefresh.RevocationEndsRefreshing | apps/api/src/auth/auth.service.ts:188-194 | a revoked session stays revoked and at most one refresh succeeds afterwards |
| ProviderRefresh.SuccessAfterRevocationExactly | apps/api/src/auth/auth.service.ts:188-194 | a refresh of a revoked session still succeeds in some run if and only if one is past its read |
| ProviderRefresh.AdmittedCanCommit | apps/api/src/auth/auth.service.ts:212-252 | an admitted refresh can be carried to its commit from each of its four phases, whatever has become of the row |
| ProviderRefresh.CallingIsReachable | apps/api/src/auth/auth.service.ts:179-212 | from any unlocked state with such a row a new refresh reaches the provider call |
| ProviderRefresh.LogoutDoesNotStopAdmittedRefresh | apps/api/src/auth/auth.service.ts:288-309 | a log-out at any moment between read and commit leaves a refresh that succeeds on a revoked session |
| RefreshAnswers.RenewedExactly | apps/api/src/auth/auth.service.ts:179-265 | in every interleaving a refresh is answered with renewed tokens exactly if it committed, and then the session was read fit with its user allowed, the provider rotated, and the new tokens were verified |
| RefreshAnswers.RecoveryExactly | apps/api/src/auth/auth.service.ts:152-177 | rotated tokens reach the caller without a renewal exactly if the verifier was unavailable or the transaction failed after they had proved genuine |
| RefreshAnswers.EndsForGood | apps/api/src/auth/auth.service.ts:203-242 | an invalid refresh token, tokens of another subject and a user that may not sign in revoke the session in every continuation and are told to the caller |
| RefreshAnswers.EndsExactly | apps/api/src/auth/auth.service.ts:188-309 | nothing else but a log-out revokes an open session |
| RefreshAnswers.RaceToldExactly | apps/api/src/auth/auth.service.ts:195-200 | a refresh of an open session is told to retry exactly if another one has succeeded since it was requested |
| LocalAccount.AccountStore.Apply | apps/api/src/auth/bootstrap-local-super-admin.ts:42-92 | a bootstrap succeeds exactly without a local identity and creates it with one setup token |
| LocalAccount.AccountStore.Recover | apps/api/src/auth/bootstrap-local-super-admin.ts:94-149 | an uninterrupted recovery is its read followed by its write, or changes nothing |
| LocalAccount.AccountStore.AcceptSetupToken | apps/api/src/auth/local-auth.service.ts:195-235 | a live, unexpired token is used up and opens an onboarding session |
| LocalAccount.AccountStore.CompleteInitialPassword | apps/api/src/auth/local-auth.service.ts:237-288 | the first password activates the account from a live onboarding session only |
| LocalAccount.StepKeepsTokens | apps/api/src/auth/bootstrap-local-super-admin.ts:42-149 | every step keeps at most one live setup token |
| LocalAccount.StepKeepsAccount | apps/api/src/auth/bootstrap-local-super-admin.ts:94-149 | in every interleaving the account tells exactly whether a recovery has spoiled it since its last first password |
| LocalAccount.RecoverableExactly | apps/api/src/auth/bootstrap-local-super-admin.ts:94-149 | in every run: ACTIVE exactly with a credential and recovery accepted, if and only if no recovery has spoiled the account since its last first password |
| LocalAccount.OneLiveToken | apps/api/src/auth/bootstrap-local-super-admin.ts:117-135 | at most one live setup token in every run whatever |
| LocalAccount.OverlapSpoils | apps/api/src/auth/bootstrap-local-super-admin.ts:101-132 | a first password inside an open recovery followed by its write leaves a credential on an inactive account, with the new setup token as the way on |
| LocalAccount.LockedOutForever | apps/api/src/auth/bootstrap-local-super-admin.ts:101-112 | a spoiled account without an acceptable token and without a session to complete is refused in every continuation |
| LocalAccount.MendableExactly | apps/api/src/auth/local-auth.service.ts:195-288 | a spoiled account can become recoverable again if and only if it still has such a token or session |
| LocalAccount.OverlapArises | apps/api/src/auth/local-auth.service.ts:237-260 | the overlap is possible as soon as a setup token has been accepted |
| LocalAccount.CompletionLeavesOneSession | apps/api/src/auth/local-auth.service.ts:256-275 | right after completion exactly one session is open, a full one |
| LocalAccount.RecoveryClosesAll | apps/api/src/auth/bootstrap-local-super-admin.ts:117-138 | a recovery leaves no open session and one live token, the new one |
| AccountOutcomes.BootstrapMakesAccount | apps/api/src/auth/bootstrap-local-super-admin.ts:42-92 | a bootstrap succeeds exactly without a local identity and with a new hash, and its account can be recovered under exactly its name |
| AccountOutcomes.BootstrapTokenLasts | apps/api/src/auth/local-auth.service.ts:195-207 | the token of a bootstrap is accepted exactly for the setup lifetime |
| AccountOutcomes.RecoveryTokenLasts | apps/api/src/auth/local-auth.service.ts:195-207 | so is the token of a recovery |
| AccountOutcomes.OnboardingLasts | apps/api/src/auth/local-auth.service.ts:237-252 | the session of an accepted token can set the password exactly until the nearer of its expiries |
| AccountOutcomes.RecoveryIsForItsAccount | apps/api/src/auth/bootstrap-local-super-admin.ts:94-138 | a recovery is for the account of its name only and leaves it invited without a password, at the next version |
| AccountOutcomes.CompletesExactly | apps/api/src/auth/local-auth.service.ts:237-252 | in every run exactly the open, unexpired onboarding sessions can set the first password |
| AccountOutcomes.ClosedForGood | apps/api/src/auth/local-auth.service.ts:237-252 | a closed session sets no password in any continuation |
| AccountOutcomes.AcceptedOnce | apps/api/src/auth/local-auth.service.ts:195-216 | a setup token that was accepted is refused in every continuation |
| AccountOutcomes.RecoveryEndsEarlier | apps/api/src/auth/bootstrap-local-super-admin.ts:117-138 | a recovery ends every earlier token and session in every continuation |
| AccountOutcomes.WriteFailsExactly | apps/api/src/auth/bootstrap-local-super-admin.ts:113-138 | in every run a recovery that has read can write exactly if the hash of its new token is free |
| IdlePool.PrismaIdlePool.EnterRun | apps/api/src/common/prisma-idle.ts:26-32 | entry: wait for the close barrier, refuse, or take a lease; the pool stays sound |
| IdlePool.PrismaIdlePool.LeaveRun | apps/api/src/common/prisma-idle.ts:35-42 | leaving: the last lease wakes the stored drainer and arms the timer; the pool stays sound |
| IdlePool.PrismaIdlePool.ArmTimer | apps/api/src/common/prisma-idle.ts:60-71 | arming keeps the pool sound and changes nobody's admission |
| IdlePool.PrismaIdlePool.BeginClose | apps/api/src/common/prisma-idle.ts:73-81 | from the return on whoever enters waits for this very close, which is a new one; an idle pool stays sound |
| IdlePool.PrismaIdlePool.BeginShutdown | apps/api/src/common/prisma-idle.ts:45-53 | the first stretch of a shutdown |
| IdlePool.PrismaIdlePool.ContinueShutdown | apps/api/src/common/prisma-idle.ts:50-52 | a shutdown woken from its drain |
| IdlePool.PrismaIdlePool.TimerFired | apps/api/src/common/prisma-idle.ts:62-68 | the timer callback closes an idle pool only, and keeps it sound |
| IdlePool.PrismaIdlePool.CloseSettled | apps/api/src/common/prisma-idle.ts:76-78 | nobody waits for this close any more, the barrier of any other close stays, and the pool stays sound |
| IdlePool.StepKeepsInv | apps/api/src/common/prisma-idle.ts:26-81 | every stretch of every interleaving keeps the invariant |
| IdlePool.ExecutionKeepsInv | apps/api/src/common/prisma-idle.ts:26-81 | the same over whole executions |
| IdlePool.DisconnectNeverOverlaps | apps/api/src/common/prisma-idle.ts:26-81 | a disconnect overlaps no operation, a close means no active operation, an armed timer means idle, open and not stopping, and no two disconnects overlap |
| IdlePool.StoppedStaysDrained | apps/api/src/common/prisma-idle.ts:30 | once stopping with no active operation, none ever starts again |
| IdlePool.SingleCallerIsWoken | apps/api/src/common/prisma-idle.ts:45-53 | a single shutdown caller is never lost: while it drains an operation is active |
| IdlePool.SecondCallerLosesTheFirst | apps/api/src/common/prisma-idle.ts:50 | two callers that drain together: the first is lost |
| IdlePool.LostForever | apps/api/src/common/prisma-idle.ts:38-39 | a lost caller is never woken |
| IdlePool.LostExactlyWhenTwoDrain | apps/api/src/common/prisma-idle.ts:50 | at the end of any run, drained or not, someone is lost if and only if two callers were draining at once in some state of it |
| IdleTimer.TimerArmedExactly | apps/api/src/common/prisma-idle.ts:60-71 | in every reachable state the timer is armed if and only if there is an idle time, an operation has ended or a failure has been handled since the last idle close, and the pool is idle, open and not stopping |
| IdleTimer.NoIdleTimeNoTimer | apps/api/src/common/prisma-idle.ts:61 | without an idle time there is never a timer |
| IdleTimer.LastOperationArms | apps/api/src/common/prisma-idle.ts:36-41 | the end of an operation arms the timer exactly if it was the last one of a pool with an idle time that is not stopping |
| IdleTimer.ElapsedTimerCloses | apps/api/src/common/prisma-idle.ts:62-68 | when the timer elapses a close begins at once and whoever comes next waits for it |
| IdleTimer.IdleCloseEnds | apps/api/src/common/prisma-idle.ts:62-79 | an idle close runs its disconnect and is over; exactly if that failed, its handler arms the timer again |
| IdleTimer.StartsExactly | apps/api/src/common/prisma-idle.ts:26-32 | in every run an operation waits during a close, is refused exactly after a shutdown call with nothing running, and else starts at once |
| IdleTimer.ShutdownJoinsClose | apps/api/src/common/prisma-idle.ts:45-53 | a shutdown call at rest, or woken, joins the close in progress or a new one |
| IdleTimer.LastOperationWakes | apps/api/src/common/prisma-idle.ts:36-41 | the end of the last operation wakes the caller whose resolve function was kept |
| RateLimiter.Limiter.Consume | apps/api/src/auth/postgres-security-rate-limiter.ts:24-82 | the decision and the remaining count are those of the calls since the last clean-up past the window's end, the retry delay is the fewest whole seconds to that end, every 256th call cleans up, and the decision and count equal those of a counter never cleaned or capped exactly when none of its calls was removed or the rest is over the limit |
| RateLimiter.TableCounts | apps/api/src/auth/postgres-security-rate-limiter.ts:27-58 | after any history of writes and clean-ups the table holds exactly the windows with calls since their last removal, each with their number up to the cap |
| RateLimiter.WindowExactly | apps/api/src/auth/postgres-security-rate-limiter.ts:28-46 | a window starts at a multiple of its length in milliseconds and holds exactly the calls of its key and length in that time |
| RateLimiter.DecisionExactly | apps/api/src/auth/postgres-security-rate-limiter.ts:68-73 | for clean-ups by any clock: a decision is the ideal one if and only if no call of the window was removed or the remaining ones are over the limit |
| RateLimiter.OvertakenCallIsAllowed | apps/api/src/auth/postgres-security-rate-limiter.ts:28-52 | a full window, a clean-up past its end and a call that still falls into it: the call is allowed where the ideal counter refuses |
| RateLimiter.FreshWindowIntact | apps/api/src/auth/postgres-security-rate-limiter.ts:76-84 | a window that has just been read has lost no call, because earlier clean-ups went by an earlier clock |
| RateLimiter.StepKeepsInv | apps/api/src/auth/postgres-security-rate-limiter.ts:24-84 | in every interleaving of readings, writes and clean-ups a pending call is marked overtaken exactly when its window has lost calls |
| RateLimiter.DecidedIdeallyExactly | apps/api/src/auth/postgres-security-rate-limiter.ts:24-84 | a call is decided ideally if and only if no clean-up past its window's end removed its bucket between its reading and its write, or the rest is over the limit |
| RateLimiter.WindowAllowsLimit | apps/api/src/auth/postgres-security-rate-limiter.ts:68-73 | of the ideal counter, never cleaned or capped: per window exactly the smaller of calls and limit is allowed |
| RateLimiter.IntervalAllowsTwice | apps/api/src/auth/postgres-security-rate-limiter.ts:28-36 | of the ideal counter: any interval of one window length allows at most twice the limit |
| RateLimiter.AllowedBetweenRemovals | apps/api/src/auth/postgres-security-rate-limiter.ts:37-52 | of the table, in every history under one limit: the allowed calls of a window are the smaller of calls and limit since its last removal, plus the same for every earlier removal |
| RateLimiter.TableAllowsLimitExactly | apps/api/src/auth/postgres-security-rate-limiter.ts:68-84 | of the table, under one limit and for clean-ups by any clock: a window is never allowed fewer calls than the smaller of calls and limit, and exactly that many if and only if no more than the limit were made or none was written after the window had lost calls |
| RateLimiter.TableIntervalAllowsTwice | apps/api/src/auth/postgres-security-rate-limiter.ts:28-36 | of the table, under one limit: an interval of one window length allows at most twice the limit if neither of the two windows it meets has a call written after losing calls |
| RateLimiter.LateExactlyWhenOvertaken | apps/api/src/auth/postgres-security-rate-limiter.ts:28-52 | over every execution: a call was written into a window that had lost calls if and only if a call overtaken by a clean-up was written |
| RateLimiter.RunAllowsLimitExactly | apps/api/src/auth/postgres-security-rate-limiter.ts:24-84 | in every interleaving under one limit a window is allowed exactly the smaller of calls and limit if and only if no more than the limit were made or no overtaken call of it was written |
| RateLimiter.RunIntervalAllowsTwice | apps/api/src/auth/postgres-security-rate-limiter.ts:28-36 | in every interleaving under one limit an interval of one window length allows at most twice the limit, unless an overtaken call of one of its two windows was written |
| RateLimiter.OvertakenRunExceedsLimit | apps/api/src/auth/postgres-security-rate-limiter.ts:28-52 | from any sound state with a pending call of a window that has had its limit, time, a clean-up and the write lead to more than the limit of allowed calls |
| StoragePolicy.CheckPreconditions | apps/api/maintenance/storage/policy.ts:241-266 | accepted exactly with the expected digest, no drifted managed policy and no other policy naming a client role |
| StoragePolicy.ApplyIsExact | apps/api/maintenance/storage/policy.ts:450-471 | the plan's SQL yields exactly the managed policies and leaves the others alone |
| StoragePolicy.RollbackRestores | apps/api/maintenance/storage/policy.ts:426-441 | whether or not the apply took effect, the rollback restores the table if and only if every managed policy was as planned |
| StoragePolicy.RollbackRestoresInventory | apps/api/maintenance/storage/policy.ts:230-239 | it restores what the inventory shows if and only if no managed policy had visibly drifted |
| StoragePolicy.PolicyTable.ApplyExactPlan | apps/api/maintenance/storage/policy.ts:371-381 | the apply takes effect unless it was refused, also when its reply is lost |
| StoragePolicy.PolicyTable.RestoreExactPolicies | apps/api/maintenance/storage/policy.ts:382-391 | unless the request is refused the managed policies go back and the others stay, also when the reply is lost; success exactly without a fault and with the former digest |
| StoragePolicy.PolicyTable.ExecuteStoragePolicyPlan | apps/api/maintenance/storage/policy.ts:284-312 | PASS exactly without a fault and with the preconditions, with the plan in force; otherwise the exact table for every fault of the apply and of the rollback |
| StoragePolicy.UnharmedExactly | apps/api/maintenance/storage/policy.ts:307-311 | a failed execution that wrote leaves the table as before if and only if both requests were refused, or no managed policy was restrictive and the plan was not left in force or was there already; it leaves what the inventory shows as before if and only if the plan was not left in force or was there already |
| StoragePolicy.AccessExactly | apps/api/maintenance/storage/policy.ts:443-448 | with the plan in force a request is allowed if and only if it is planned or an unmanaged permissive policy opens it, and no unmanaged restrictive policy stops it |
| StoragePolicy.BrowserAccessExactly | apps/api/maintenance/storage/policy.ts:259-265 | after an apply that met the preconditions a browser role gets through exactly by an unmanaged policy for everybody or for a role it acts as |
| StoragePolicy.ApplicationAccessExactly | apps/api/maintenance/storage/policy.ts:216-265 | after such an apply the application role gets exactly the planned prefixes and the readiness key, apart from unmanaged policies for everybody or for a role it acts as |
| StoragePolicy.ReadinessIsReadOnly | apps/api/maintenance/storage/policy.ts:216-228 | under the managed policies the readiness key can be read and nothing else |
| UserDisposition.DispositionStore.ApplyAtomic | apps/api/maintenance/auth/user-disposition.ts:129-172 | LINK and DISABLE as specified, all or nothing |
| UserDisposition.DispositionStore.RunBootstrapSuperAdmin | apps/api/maintenance/auth/user-disposition.ts:251-288 | the bootstrap as specified, all or nothing |
| UserDisposition.DispositionStore.RevokeSessions | apps/api/maintenance/auth/user-disposition.ts:164-169 | exactly the sessions of one user are closed |
| UserDisposition.BootstrapAddsSuperAdmin | apps/api/src/auth/bootstrap-super-admin.ts:46-82 | creating or updating the bootstrap row never lowers the number of enabled super admins |
| UserDisposition.StepKeepsSuperAdmin | apps/api/maintenance/auth/user-disposition.ts:750-757 | no validated command takes away the last enabled super admin |
| UserDisposition.RunKeepsSuperAdmin | apps/api/maintenance/auth/user-disposition.ts:129-288 | the same over every run of commands |
| UserDisposition.StepGrows | apps/api/maintenance/auth/user-disposition.ts:144-163 | no row disappears, and every change of a row raises its version by one |
| UserDisposition.RunGrows | apps/api/maintenance/auth/user-disposition.ts:129-288 | versions only grow over every run |
| UserDisposition.AppliedAtMostOnce | apps/api/maintenance/auth/user-disposition.ts:129-172 | one LINK or DISABLE entry is applied at most once, whatever commands come between |
| UserDisposition.RepeatedLink | apps/api/maintenance/auth/user-disposition.ts:743-748 | repeating an applied LINK is UNCHANGED |
| UserDisposition.RepeatedDisable | apps/api/maintenance/auth/user-disposition.ts:743-748 | repeating an applied DISABLE is UNCHANGED exactly when the entry names the user's role, else AUTH_DB_CAS_MISMATCH |
| UserDisposition.DisableWithOtherRole | apps/api/maintenance/auth/user-disposition.ts:743-748 | an instance of the second case |
| UserDisposition.AppliedRevokesSessions | apps/api/maintenance/auth/user-disposition.ts:164-169 | after an applied command exactly the user's sessions are closed |
| DispositionOutcomes.AppliesExactly | apps/api/maintenance/auth/user-disposition.ts:129-172 | LINK and DISABLE are applied if and only if the row is as expected (identifier, address, version, linked identity) and not done, an enabled super admin remains, and the new row keeps the unique indexes; the row that is written is given column by column |
| DispositionOutcomes.LinkFailsExactly | apps/api/maintenance/auth/user-disposition.ts:144-163 | an expected LINK that takes no last administrator fails exactly if another row has its address or identity |
| DispositionOutcomes.ProtectedExactly | apps/api/maintenance/auth/user-disposition.ts:750-757 | the protection strikes exactly for an expected change that takes the last enabled super admin away |
| DispositionOutcomes.BootstrapExactly | apps/api/src/auth/bootstrap-super-admin.ts:23-82 | a bootstrap goes through if and only if the provider agrees and the address belongs to an expected or done row with no other identity on either side, or to nobody and the row is new or has the subject without an address |
| DispositionOutcomes.BootstrapEffect | apps/api/maintenance/auth/user-disposition.ts:251-288 | it leaves one row as an enabled super admin under its subject and address, closes that user's sessions and touches nothing else |
| DispositionOutcomes.RepeatedBootstrap | apps/api/src/auth/bootstrap-super-admin.ts:39-65 | repeating a bootstrap that went through is UNCHANGED and changes nothing |
| MigrationRunner.ManagedExactly | apps/api/maintenance/migration/runner.ts:506-568 | MANAGED_EXACT_CHAIN_READY exactly when the history is a prefix of the chain with equal checksums, nothing failed, and the relations are managed ones |
| MigrationRunner.ClassifiedExactly | apps/api/maintenance/migration/runner.ts:506-568 | pristine exactly without history, relations and types, a collision otherwise without history, drift exactly for the rest; something is to be applied exactly to a pristine target and to a shorter managed chain |
| MigrationRunner.PrefixTestSuffices | apps/api/maintenance/migration/runner.ts:520-523 | unknown names and over-long histories are already excluded by the prefix test |
| MigrationRunner.ExecutePinnedPlan | apps/api/maintenance/migration/runner.ts:334-373 | every journal is one of three legal paths, or the start of one if a write fails; VERIFIED exactly after a clean child and a conclusive inspection |
| MigrationRunner.VerifiedMeansComplete | apps/api/maintenance/migration/runner.ts:362-373 | an inspection is conclusive if and only if the history is the whole release chain and the relations are managed |
| MigrationRunner.TransitionsAreLegal | apps/api/maintenance/migration/runner.ts:485-504 | a transition is allowed exactly when it is a step of a legal path |

## Left out

- File reading, symbolic links, permissions, child processes, HTTP and the database client: only their effect on state is modelled.
- Real cryptography, and the canonical-JSON digests of plans, manifests and approvals: a plan's own digest is recomputed from the plan and is not a field here.
- Validation of environment and target bindings, the command line, controllers, guards and audit records.
- The single-plan and single-pair entry points of the legacy migration, and the text of its journal: the manifest forms contain them.
- LegacySwap.Database.CasManifest: does not model the automatic `updatedAt` column, which every update also sets.
- LegacyMigration.MigratedValueNamesItsContent: assumes the digest is injective, because size and digest of a plan are otherwise unrelated.
- The JSON parser is a function that reads back the texts the model writes; it is not modelled character by character.
- Lone surrogates in locators: text is a sequence of Unicode scalar values.
- Copying of storage objects into the cut (`createBoundBackupObjectCopyAdapter`) and verification of restore receipts: they would only add easy members.
- Floating-point money and amounts with more than two decimals.
- RateLimiter: retention of sessions and setup tokens by the maintenance service, which deletes only what is long expired or revoked.
- ProviderRefresh: the transaction is modelled on values as steps of a state machine, because its point is the interleaving; the exact error of a refused user is not distinguished.
- RE_INVITE commands: `finalizeReinvite` makes no last-administrator check and is outside the claim.
- LocalAccount: other local users, roles and deactivation; a recovery is split into its read and its write, the other operations are single steps.
- StoragePolicy: the rendering of SQL text and the way the database prints expressions back.
- Change logs, decisions, sales calculation, report filters, key rotation, the scrypt limiter and the heavy-operation gate.
