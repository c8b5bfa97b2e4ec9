# Verified models of the dubbing pipeline's stateful parts

A Dafny model of the parts of the dubbing pipeline whose correctness depends on state, order or concurrency, with
proofs about all inputs, all runs and all interleavings. `dafny verify dfyconfig.toml` checks everything.

- `AuthStore` – the tables of users, invites, QR login codes, recovery codes, refresh tokens and API keys. `Exec` is
  the effect of one transaction run alone; the class is the store in the program's own form.
- `AuthHistories` – conservation, single use and monotone revocation over every history of transactions.
- `AuthInterleaving` – clients that run their statements one at a time, fail anywhere, and share a file lock; every
  such run refines the atomic store.
- `RefreshChains` – the `replaced_by` chains of rotated tokens and the refresh endpoint.
- `RefreshInterleaving` – any number of overlapping refresh calls.
- `ApiKeys` – minting, revoking and recognising API keys.
- `MusicMerge`, `MusicScan`, `MusicBed`, `SpeechCoverage` – the interval algebra of music regions: the merge as
  connected components, the window scan, suppression against the bed, the coverage sum as a measure.
- `StemCache` – the cache of separated stems under crashes and concurrent callers.
- `RangeStreaming` – byte ranges (sections 14.1.2 and 14.4 of RFC 9110), the chunk generator, and reassembly.
- `Utf8Replace`, `AuditTail` – the tail of the audit log, down to broken characters at the cut.
- `ReleaseZip` – the release packer against the release checker.
- `UserSettings` – the settings file as a last-writer-wins map.
- `Wrappers`, `Text`, `Numbers` – optional values, string operations, bytes and number helpers used throughout.

## Assumptions

- The file lock is exclusive (`locking` in `AuthInterleaving`). One run shows what happens without it.
- The clock never goes back and starts at 1. `used_at` is tested by truthiness, so zero would count as unused; the
  theorems that need this say so (`ClockRuns`), and recovery codes do not need it.
- Hashes are injective: a digest is a constructor applied to the hashed text, and a slot is named by the hashed bytes.
- Real numbers stand for floats. Text is ASCII for stripping and lower-casing; the audit log is treated as bytes.
- `os.path.normpath` and the loss of leading slashes are what the zip library does to a member's name on POSIX.
- What `StemCache` needs of conversion, Demucs, copies and callers is listed in `Env`, and `FreshIffSafe` says which
  combinations are enough. `utils/io.py` makes copies atomic by a temporary file named by the process id alone, so not
  between threads of one process. Copies to the caller's directory and the reading of a file while it is replaced are
  taken to be atomic. Demucs and the converter are deterministic but otherwise arbitrary.

## Where the code does not do what one might expect

- A redeemed invite is refused a second time exactly when the clock did not read zero
  (`AuthHistories.SecondRedemptionRefused`).
- The clock of a redemption is read before the lock is taken. The call began before the invite expired
  (`AuthInterleaving.RedeemersCalledInTime`), but it may commit later, for every expiry of at least 1 and for no other
  (`AuthInterleaving.NoLateCommitIff`).
- Two overlapping refreshes of one token overwrite the first `replaced_by` edge
  (`RefreshInterleaving.RacingRotationsOverwrite`); edges are kept exactly when the rotation finds no other replacement
  (`RefreshChains.EdgesKeptIff`). Chains end and have no cycles all the same.
- A revoke-all does not end a user's sessions while a refresh of that user is pending
  (`RefreshInterleaving.RevokeAllEndsSessionsIff`).
- A crash in a converter that writes in place, a changed input, or files overwritten in place by an overlapping call of
  the same slot put a wrong result into the stem cache (`StemCache.FreshIffSafe`); nothing keeps calls of one slot from
  overlapping. Settings with bars can share a slot, as `StemCache.SettingsCollideIff` says.
- Suppression and bed disagree on some segment for every region that is not exact (`MusicBed.AgreeIffExact`), such as
  nearly all regions given end-first; for regions that are only off the printed grid the difference is at most half a
  millisecond at each end.
- The packer tests names before the archive normalises them, and a file's own name may hold backslashes, which it reads
  as slashes: `src/..\releases\x` is packed as `releases/x` and then refused.
- `bytes=-n` is read as the first n + 1 bytes, where section 14.1.2 of RFC 9110 asks for the last n.
- Content-Length is 1 for an empty file. With `max_lines` = 0 the audit tail is the whole list.
- "Notifications enabled" can be stored without a topic.

## Model

| member | source | states |
|---|---|---|
| AuthStore.AuthStore.Upsert | src/dubbing_pipeline/api/models.py:254-280 | a row with the same username keeps its id, name and creation time and gets the new hash, role and second factor; a new name under an existing id is refused and nothing changes |
| AuthStore.AuthStore.SetTotp | src/dubbing_pipeline/api/models.py:282-292 | sets the second factor of one user and nothing else |
| AuthStore.AuthStore.Create | src/dubbing_pipeline/api/models.py:590-622 | inserts the user with the hash and role asked for and no second factor, exactly when id and name are free; otherwise nothing changes |
| AuthStore.AuthStore.NewInvite | src/dubbing_pipeline/api/models.py:530-558 | inserts an unused invite; an existing token is never overwritten |
| AuthStore.AuthStore.Redeem | src/dubbing_pipeline/api/models.py:590-692 | each outcome exactly when its test says so, in the order of the tests; on success one user is added, with the hash and role asked for, and the invite is marked with time and user; otherwise all six tables are as before |
| AuthStore.AuthStore.PutQr | src/dubbing_pipeline/api/models.py:694-709 | a put replaces the row of the nonce by an unused one |
| AuthStore.AuthStore.ConsumeQr | src/dubbing_pipeline/api/models.py:711-738 | a login happens exactly on a row that is unused and unexpired, marks it and returns its user; otherwise nothing changes |
| AuthStore.AuthStore.PutCodes | src/dubbing_pipeline/api/models.py:740-755 | the loop over the hashes makes every listed code unused and leaves the other codes alone |
| AuthStore.AuthStore.ConsumeCode | src/dubbing_pipeline/api/models.py:757-777 | accepts exactly an unused code, and afterwards the code is not usable whatever the answer was |
| AuthStore.AuthStore.PutRefreshToken | src/dubbing_pipeline/api/models.py:377-444 | stores an active row with the hash, user and times given, empty metadata turned into NULL and the user agent cut to its first 160 characters |
| AuthStore.AuthStore.Rotate | src/dubbing_pipeline/api/models.py:456-470 | revokes the old row and points it at the new token; an unknown token changes nothing |
| AuthStore.AuthStore.RevokeOne | src/dubbing_pipeline/api/models.py:472-482 | revokes one row and no other |
| AuthStore.AuthStore.RevokeAll | src/dubbing_pipeline/api/models.py:484-494 | empties the user's active sessions at every time; rows of other users are unchanged |
| AuthStore.AuthStore.RevokeByDevice | src/dubbing_pipeline/api/models.py:515-526 | revokes exactly the rows of that device of that user and returns their number |
| AuthHistories.RevocationIsExact | src/dubbing_pipeline/api/models.py:484-526 | after revoke-all or revoke-by-device every active list, of any user at any time, is the old one less the targeted rows; the count is the number of matching rows |
| AuthHistories.UsersAreForever | src/dubbing_pipeline/api/models.py:254-280 | over every stretch of every history no user disappears and no id, name or creation time changes, although upserts rewrite rows |
| AuthHistories.UsersStayConsistent | src/dubbing_pipeline/api/models.py:74-86 | in every history ids are keys and no two users share a name |
| AuthHistories.InviteConservation | src/dubbing_pipeline/api/models.py:590-692 | in every history the used invites are as many as the redemptions, each token is redeemed at most once, and `used_by` is injective into the existing users |
| AuthHistories.InvitedUsersAreDistinct | src/dubbing_pipeline/api/models.py:624-692 | the users that used invites name are as many as the redemptions |
| AuthHistories.RedemptionIsForever | src/dubbing_pipeline/api/models.py:645-690 | whatever happens later, a redeemed invite names the user made by it, who keeps the id and the name asked for |
| AuthHistories.RedeemedUserIsAsAsked | src/dubbing_pipeline/api/models.py:655-690 | right after a redemption the new row holds the name, hash and role the caller asked for and no second factor |
| AuthHistories.SecondRedemptionRefused | src/dubbing_pipeline/api/models.py:649-650 | `used_at` is tested by truthiness: a redeemed invite refuses the next caller if and only if the clock did not read zero at the redemption |
| AuthHistories.QrRowsFollowPuts | src/dubbing_pipeline/api/models.py:694-738 | the stored row of a nonce is the latest put's, and logins plus one for an unused row never exceed the puts |
| AuthHistories.QrLoginIsForLatestPut | src/dubbing_pipeline/api/models.py:718-736 | each login returns the user of the latest put and read the clock no later than its expiry, zero meaning none |
| AuthHistories.CodeAcceptancesBoundedByPuts | src/dubbing_pipeline/api/models.py:740-777 | acceptances of a user's recovery code never exceed the times it was put, at any clock readings |
| AuthHistories.RevocationIsForever | src/dubbing_pipeline/api/models.py:377-494 | in histories with fresh jtis at each put, a revoked token stays revoked and no token changes owner or expiry |
| AuthHistories.InactiveStaysInactive | src/dubbing_pipeline/api/models.py:496-513 | a token that has left its owner's active list never returns to any active list |
| AuthInterleaving.LockedRunsRefineAtomicStore | src/dubbing_pipeline/api/models.py:643-692 | refinement: after every interleaving of clients and failures under the lock the committed tables are those of the atomic store, and each client that returned was told the outcome of an event for its own call that no other client was told of |
| AuthInterleaving.CallsKeepRealTimeOrder | src/dubbing_pipeline/api/models.py:641-643 | real-time order: a call takes its place in the history after everything recorded when it began, and a redemption carries the clock reading of that moment |
| AuthInterleaving.AnswersAreEvents | src/dubbing_pipeline/api/models.py:643-692 | over a whole run, with clients calling any number of times, all answers are about different events with those outcomes |
| AuthInterleaving.SuccessesToldAreBounded | src/dubbing_pipeline/api/models.py:643-777 | at most one caller is ever told that it redeemed a given invite; callers are told of no more logins and acceptances than there were puts |
| AuthInterleaving.RedeemersGetWhatTheyAsked | src/dubbing_pipeline/api/models.py:655-692 | in every interleaving whoever is told of a successful redemption got a user with the name, hash and role it asked for, and that user still exists |
| AuthInterleaving.ReturnedRedeemersGotWhatTheyAsked | src/dubbing_pipeline/api/models.py:655-692 | the same for every client that has returned |
| AuthInterleaving.CallRunsAlone | src/dubbing_pipeline/api/models.py:643-692 | from every reachable state with the lock free every call can run to its end, and alone it has exactly the effect and answer of its atomic transaction |
| AuthInterleaving.FailureRollsBack | src/dubbing_pipeline/api/models.py:678-692 | a client may fail at any point; uncommitted writes are gone, committed ones stay, the lock is free |
| AuthInterleaving.OnlyCommitChangesTables | src/dubbing_pipeline/api/models.py:678-692 | the tables change only at a commit, then by exactly the decided transaction, and never for a refusal or a rollback |
| AuthInterleaving.InvitesUnderInterleaving | src/dubbing_pipeline/api/models.py:643-692 | the conservation of invites for every interleaving |
| AuthInterleaving.UsersUnderInterleaving | src/dubbing_pipeline/api/models.py:254-280 | a user seen at any point of a run has the same id, name and creation time at every later point |
| AuthInterleaving.CodesUnderInterleaving | src/dubbing_pipeline/api/models.py:715-777 | for every interleaving QR logins and recovery-code acceptances never exceed the puts |
| AuthInterleaving.LoginsUnderInterleaving | src/dubbing_pipeline/api/models.py:715-736 | for every interleaving a QR login is for the user of the latest put and read the clock before its expiry |
| AuthInterleaving.WithoutLockOnePutTwoLogins | src/dubbing_pipeline/api/models.py:719-735 | a run without the lock in which one put serves two logins: the read and the update are separate statements |
| AuthHistories.InviteRowsFollowCreation | src/dubbing_pipeline/api/models.py:530-558 | in every history there is an invite exactly where one was made, and it keeps the expiry it was made with |
| AuthHistories.RedemptionReadClockInTime | src/dubbing_pipeline/api/models.py:651-653 | in every history each redemption read the clock no later than the expiry its invite was made with, zero meaning none |
| AuthInterleaving.RedemptionsUnderInterleaving | src/dubbing_pipeline/api/models.py:641-653 | the same for every interleaving under the lock |
| AuthInterleaving.RedeemersCalledInTime | src/dubbing_pipeline/api/models.py:641-653 | a caller who is told that the redemption succeeded had called before the invite expired |
| AuthInterleaving.RedemptionMayCommitAfterExpiry | src/dubbing_pipeline/api/models.py:641-653 | for every expiry of at least 1 a run in which the redemption commits with the clock past it, because the clock is read before the lock is taken |
| AuthInterleaving.NoLateCommitIff | src/dubbing_pipeline/api/models.py:641-653 | exactly when no redemption is late: no run commits one with the clock past the expiry if and only if the expiry is below 1 |
| AuthInterleaving.LoginsBoundedIffLocking | src/dubbing_pipeline/api/models.py:67-68 | logins are bounded by puts in every run if and only if the lock excludes |
| AuthStore.AuthStore.RevokeApiKey | src/dubbing_pipeline/api/models.py:343-350 | revokes one key row and no other |
| RefreshChains.ForestAfter | src/dubbing_pipeline/api/models.py:456-470 | in every history with fresh jtis, whatever tokens are rotated, active tokens have no successor and `replaced_by` is injective and goes one rotation deeper each time |
| RefreshChains.EdgesKeptIff | src/dubbing_pipeline/api/models.py:460-467 | exactly when edges are set once, over histories with fresh puts: when every rotation finds its old token not replaced, or replaced by the same token - a test the UPDATE does not make |
| RefreshChains.EdgesAreSetOnce | src/dubbing_pipeline/api/models.py:456-470 | so they are when each rotation names a still active token |
| RefreshChains.ChainMeasure | src/dubbing_pipeline/api/models.py:456-470 | each step along `replaced_by` lowers a non-negative measure by exactly one |
| RefreshChains.ChainsEnd | src/dubbing_pipeline/api/models.py:456-513 | from any token the chain reaches a tip within as many steps as there are replaced tokens, and `replaced_by` is injective |
| RefreshChains.NoCycles | src/dubbing_pipeline/api/models.py:456-470 | no chain returns to where it started |
| RefreshChains.RotateRefreshToken | src/dubbing_pipeline/api/auth/refresh_tokens.py:62-112 | the refresh endpoint run alone: each result exactly when the row read calls for it; on a rotation the new row has the new hash and expiry and the old device, the old row points to it, and no third row changes; a replay or mismatch revokes all rows of the user; unknown and revoked tokens change nothing |
| RefreshChains.NewTokenRefreshes | src/dubbing_pipeline/api/auth/refresh_tokens.py:30-112 | right after a rotation the new token, with the hash it was issued with, refreshes until it expires |
| RefreshChains.OldTokenIsReplay | src/dubbing_pipeline/api/auth/refresh_tokens.py:76-80 | and the old token is a replay |
| RefreshChains.CallKeepsLinksFresh | src/dubbing_pipeline/api/auth/refresh_tokens.py:62-112 | whatever transactions a call performs with fresh links continue a valid history with fresh links |
| RefreshInterleaving.RacingChainsEnd | src/dubbing_pipeline/api/auth/refresh_tokens.py:71-111 | however refresh calls and other transactions interleave, chains end, never return to their start, and `replaced_by` is injective |
| RefreshInterleaving.RacingRotationsOverwrite | src/dubbing_pipeline/api/auth/refresh_tokens.py:71-111 | a run from the empty store: two overlapping calls with one token; the second overwrites the first edge and leaves the first new token active and unreachable |
| RefreshInterleaving.EdgesKeptIffExclusive | src/dubbing_pipeline/api/auth/refresh_tokens.py:71-111 | edges are set once in every run, crashes included, if and only if calls with the same token never overlap |
| RefreshInterleaving.RefreshRunsAlone | src/dubbing_pipeline/api/auth/refresh_tokens.py:62-112 | a call that nothing comes in between of has exactly the effect the endpoint has alone |
| RefreshInterleaving.CallMayFail | src/dubbing_pipeline/api/auth/refresh_tokens.py:62-112 | a call may fail at any point |
| RefreshInterleaving.RevokeAllMissesPendingRefresh | src/dubbing_pipeline/api/auth/refresh_tokens.py:71-111 | a run from the empty store in which a session of the user outlives a revoke-all, because a refresh was pending |
| RefreshInterleaving.RevokeAllEndsSessionsIff | src/dubbing_pipeline/api/models.py:484-513 | exactly when a revoke-all, or that of a replay, ends the user's sessions until the next login in every continuation: when no call is then about to store a token for the user |
| ApiKeys.SplitPlain | src/dubbing_pipeline/api/deps.py:52-56 | splitting inverts building `dp_<prefix>_<secret>` for every underscore-free prefix, even when the secret has underscores |
| ApiKeys.JoinSplit | src/dubbing_pipeline/api/deps.py:52-56 | joining inverts splitting for every text that splits |
| ApiKeys.CurrentIdentity | src/dubbing_pipeline/api/deps.py:49-70 | the candidate loop decides by the first row that verifies, and refuses when its user is gone |
| ApiKeys.MintKey | src/dubbing_pipeline/api/routes_keys.py:48-91 | refused exactly for an unsupported scope; otherwise the scopes are exactly the stripped ones asked for, or `read:job` when nothing is asked, and the new row holds them, the user and the hash of the key returned, which it verifies |
| ApiKeys.GrantedIsAsked | src/dubbing_pipeline/api/routes_keys.py:57-65 | which scopes a request gets, for every list of scopes |
| ApiKeys.ScopesAreAllowed | src/dubbing_pipeline/api/routes_keys.py:57-65 | no key is minted without a scope or with an unsupported one |
| ApiKeys.LiveRowIsUnrevoked | src/dubbing_pipeline/api/models.py:294-373 | a row that was created and not revoked since is there, unrevoked, with the key it was created with |
| ApiKeys.UnrevokedRowIsLive | src/dubbing_pipeline/api/models.py:294-373 | an unrevoked row was created by some event and has not been revoked since |
| ApiKeys.AcceptedIffEntitled | src/dubbing_pipeline/api/deps.py:49-70 | after any run of mints and revocations with distinct keys a presented key is accepted if and only if it was minted, never revoked and its user exists, and it yields exactly that user and those scopes |
| MusicMerge.MergeRegions | src/dubbing_pipeline/audio/music_detect.py:114-133 | the sort-and-sweep loop computes the sweep that the theorems below are about |
| MusicMerge.SortSorts | src/dubbing_pipeline/audio/music_detect.py:117-117 | sorting by start then end yields an ordered permutation |
| MusicMerge.SortIsStable | src/dubbing_pipeline/audio/music_detect.py:117-117 | regions with the same start and end keep their order |
| MusicMerge.MergeIsComponents | src/dubbing_pipeline/audio/music_detect.py:114-133 | the merged regions are exactly the connected components of the within-gap graph: each input in one and only one, same region iff connected, least start, greatest end and confidence, more than the gap apart |
| MusicMerge.MergeIgnoresOrder | src/dubbing_pipeline/audio/music_detect.py:117-133 | start, end and confidence of the result do not depend on the order of the inputs |
| MusicMerge.MergeIsIdempotent | src/dubbing_pipeline/audio/music_detect.py:114-133 | merging a merged list returns the same list, labels included |
| MusicMerge.MergeKeepsReasons | src/dubbing_pipeline/audio/music_detect.py:122-128 | read in order, the merged reasons are the sorted inputs' reasons: none lost, repeated or moved |
| MusicMerge.MergeKeepsKinds | src/dubbing_pipeline/audio/music_detect.py:122-128 | each merged region carries the kind of an input that starts where it starts |
| MusicScan.AnalyzeAudio | src/dubbing_pipeline/audio/music_detect.py:198-278 | the loop with its early break merges, with the hop as gap, one region for each hit of all windows with a quarter second in the file, with the window's span and the score as confidence |
| MusicScan.EvaluatedAreScored | src/dubbing_pipeline/audio/music_detect.py:213-217 | the windows counted as evaluated are exactly those k with k hops plus a quarter second within the duration |
| MusicScan.CoverageIffHopShort | src/dubbing_pipeline/audio/music_detect.py:199-217 | the evaluated windows cover every file of a quarter second or more if and only if hop plus a quarter second is at most the window |
| MusicScan.SuccessiveHitsShareRegion | src/dubbing_pipeline/audio/music_detect.py:213-278 | two successive hits j < k end in one region if and only if (k-j) hops are at most window plus hop |
| MusicBed.ShouldSuppressSegment | src/dubbing_pipeline/audio/music_detect.py:335-354 | true exactly when the segment is not empty and overlaps a readable region; unreadable ones are skipped |
| MusicBed.MergeKeepsSuppression | src/dubbing_pipeline/audio/music_detect.py:114-133 | merging never loses a suppression |
| MusicBed.MergedSuppressionExactly | src/dubbing_pipeline/audio/music_detect.py:335-354 | the verdict on the merged list is the verdict on the raw list, or the segment lies in a bridged hole no wider than the gap |
| MusicBed.LongSegmentsUnaffectedByMerge | src/dubbing_pipeline/audio/music_detect.py:335-354 | for segments longer than the gap the two verdicts agree |
| MusicBed.BuildMusicPreservingBed | src/dubbing_pipeline/audio/music_detect.py:374-396 | at every instant exactly one source has gain one: the original where a readable region, as printed, contains the instant, else the background |
| MusicBed.BedAgreesWithPrintedRegions | src/dubbing_pipeline/audio/music_detect.py:384-396 | for all regions and segments some instant strictly inside plays the original iff the regions as printed overlap the segment |
| MusicBed.SuppressedIffOriginalPlays | src/dubbing_pipeline/audio/music_detect.py:335-396 | for every list of exact regions a segment is suppressed if and only if some instant strictly inside it plays the original |
| MusicBed.GridRegionIsExact | src/dubbing_pipeline/audio/music_detect.py:390-393 | regions on the printed grid with start <= end are exact |
| MusicBed.GridSuppressedIffOriginalPlays | src/dubbing_pipeline/audio/music_detect.py:335-396 | so for every list of such regions a segment is suppressed if and only if some instant strictly inside it plays the original |
| MusicBed.AgreeIffExact | src/dubbing_pipeline/audio/music_detect.py:335-396 | exactly when suppression and bed agree on every segment, for one region: it ends by zero and its start, raised to zero, prints as zero, or else it runs forwards from there to its end with both ends on the printed grid |
| MusicBed.OffGridWithinHalfMillisecond | src/dubbing_pipeline/audio/music_detect.py:391-393 | off the grid suppression and bed agree up to half a millisecond at each end |
| MusicBed.ReversedRegionDisagrees | src/dubbing_pipeline/audio/music_detect.py:391-392 | a region given end-first whose start the bed plays inside a segment that is not suppressed |
| MusicBed.OffGridRegionDisagrees | src/dubbing_pipeline/audio/music_detect.py:393-393 | a region off the grid that the bed plays inside a segment that is not suppressed |
| SpeechCoverage.CoverageRatio | src/dubbing_pipeline/audio/music_detect.py:104-111 | the summing loop computes the clamped ratio that the theorems below are about |
| SpeechCoverage.CoveredBounds | src/dubbing_pipeline/audio/music_detect.py:104-111 | pairwise disjoint intervals, in any order, never cover more than the window |
| SpeechCoverage.RatioIsCoveredFraction | src/dubbing_pipeline/audio/music_detect.py:111-111 | for disjoint intervals the clamp changes nothing |
| SpeechCoverage.RatioClamps | src/dubbing_pipeline/audio/music_detect.py:104-111 | for intervals that overlap the sum counts as is, up to the whole window |
| SpeechCoverage.CoveredIsTheMeasure | src/dubbing_pipeline/audio/music_detect.py:104-111 | the sum is the true covered length: any function that is additive, full inside an interval and zero between intervals equals it |
| SpeechCoverage.CoveredMeasures | src/dubbing_pipeline/audio/music_detect.py:104-111 | the sum is such a function |
| SpeechCoverage.RatioSecondsSplit | src/dubbing_pipeline/audio/music_detect.py:104-111 | ratio times length is additive when a window is split |
| StemCache.KeyDecodesUniquely | src/dubbing_pipeline/audio/separation.py:35-43 | the hashed bytes determine content, model and device when model and device contain no bar |
| StemCache.SettingsCollideIff | src/dubbing_pipeline/audio/separation.py:35-43 | two settings share a slot for some contents if and only if one of them, as written into the hash, ends with the other |
| StemCache.KeyWithBarIsAmbiguous | src/dubbing_pipeline/audio/separation.py:42-42 | for every content, model and device: with other settings appended to the device the hashed bytes are those of a longer content under the other settings |
| StemCache.SlotDir.SeparateDialogue | src/dubbing_pipeline/audio/separation.py:81-181 | one call, whatever the slot holds: "cached" exactly when all three published files are there, which are then returned; otherwise the stems of the converted input found or made; the stems are fresh exactly when what was taken from the slot was, and a good slot stays good |
| StemCache.ExclusiveRunsKeepInv | src/dubbing_pipeline/audio/separation.py:81-160 | the write order at work: when calls of one slot do not overlap, in every run with crashes at any step `meta.json` vouches for complete and fresh published stems, though Demucs and the copies write in place |
| StemCache.EveryReturnIsFresh | src/dubbing_pipeline/audio/separation.py:81-181 | over all runs with crashes at any step every return, cached or not, is exactly the fresh stems, given atomic conversion, unchanging inputs, and either calls of a slot that do not overlap or atomic stems and copies |
| StemCache.FreshIffSafe | src/dubbing_pipeline/audio/separation.py:81-181 | every return of every run is fresh if and only if conversion is atomic, inputs do not change while used and, unless calls of one slot never overlap, stems and copies are atomic |
| StemCache.SecondCallIsServedFromCache | src/dubbing_pipeline/audio/separation.py:81-181 | in every environment a first undisturbed call returns the fresh stems and the next one gets them from the cache |
| StemCache.TruncatedConversionPoisonsCache | src/dubbing_pipeline/audio/separation.py:101-103 | with a converter that writes in place a crash leads to a cached result that is not fresh |
| StemCache.ChangedInputPoisonsCache | src/dubbing_pipeline/audio/separation.py:39-43 | an input replaced between hashing and conversion leads to a cached result that is not fresh |
| StemCache.OverwrittenStemPoisonsCache | src/dubbing_pipeline/audio/separation.py:139-160 | with stems written in place a concurrent caller leads to a cached result that is not fresh |
| StemCache.HalfCopiedStemIsHit | src/dubbing_pipeline/audio/separation.py:155-160 | with published stems written in place a third caller hits a half copied one |
| RangeStreaming.ParseDec | src/dubbing_pipeline/server.py:424-427 | reading a printed number gives it back |
| RangeStreaming.ParseSigned | src/dubbing_pipeline/server.py:424-427 | so does reading it with a sign or with white space around it |
| RangeStreaming.ResolvedInsideFile | src/dubbing_pipeline/server.py:428-429 | every header that is read at all resolves to 0 <= start <= end < size |
| RangeStreaming.NaturalRanges | src/dubbing_pipeline/server.py:420-429 | `bytes=a-b` and `bytes=a-`: what is moved into the file and what is kept |
| RangeStreaming.MissingStartIsZero | src/dubbing_pipeline/server.py:422-427 | a missing first position is read as zero, unlike a suffix range |
| RangeStreaming.RefusedIff | src/dubbing_pipeline/server.py:422-427 | a header raises exactly when one of its bounds is neither blank nor a number |
| RangeStreaming.ReportedRangeIsStable | src/dubbing_pipeline/server.py:578-579 | asking again for a reported Content-Range returns that same range |
| RangeStreaming.Generate | src/dubbing_pipeline/server.py:432-441 | the generator ends with non-empty chunks of at most a mebibyte that concatenate to exactly the range, however short the reads are |
| RangeStreaming.Serve | src/dubbing_pipeline/server.py:416-443 | without a range header, or with one of another unit or without a dash, the body is the whole file; a Content-Range, cut at its separators, reads back as the first and last position of the body sent and the size; status, length and chunk sizes |
| RangeStreaming.LengthMatchesIffNonEmpty | src/dubbing_pipeline/server.py:417-430 | Content-Length is the number of bytes sent if and only if the file is not empty |
| RangeStreaming.Reassemble | src/dubbing_pipeline/server.py:416-443 | a client that asks for the next k >= 1 bytes, k chosen each time, stops and has exactly the file |
| Utf8Replace.DecodeSplits | src/dubbing_pipeline/api/routes_audit.py:41-41 | decoding with replacement can be cut at every byte that is not a continuation byte |
| Utf8Replace.StrayContinuations | src/dubbing_pipeline/api/routes_audit.py:41-41 | the rest of a cut character decodes to replacement characters, one a byte |
| Utf8Replace.DecodeEncode | src/dubbing_pipeline/api/routes_audit.py:41-41 | decoding inverts the UTF-8 encoding of every list of characters |
| Utf8Replace.FirstCharMeaning | src/dubbing_pipeline/api/routes_audit.py:41-41 | at each place the character is decoded whose encoding stands there or, if none does, a replacement |
| AuditTail.LinesAfterCut | src/dubbing_pipeline/api/routes_audit.py:44-44 | wherever a text is cut, even between CR and LF, the lines after the first one end the lines of the whole |
| AuditTail.LinesRejoin | src/dubbing_pipeline/api/routes_audit.py:44-44 | splitting cuts at line breaks and nowhere else: the lines joined by one break each are the text |
| AuditTail.NonBlankMeaning | src/dubbing_pipeline/api/routes_audit.py:44-47 | the non-blank lines are exactly those with a visible character, in order |
| AuditTail.TailIsSuffix | src/dubbing_pipeline/api/routes_audit.py:24-48 | for every file content the tail is a suffix of the file's non-blank lines, at most `max_lines` of them, and exactly the last ones when the file fits |
| AuditTail.TailShowsWholeLines | src/dubbing_pipeline/api/routes_audit.py:33-48 | nothing else is lost: when non-blank text precedes a line feed among the bytes read, all lines after it are shown, up to `max_lines` |
| AuditTail.LinesOfParts | src/dubbing_pipeline/api/routes_audit.py:41-44 | the lines of a file are those of its parts when it is cut after a line feed |
| AuditTail.ZeroLinesMeansAll | src/dubbing_pipeline/api/routes_audit.py:48-48 | the bound on the number of lines holds for every file exactly for `max_lines` >= 1 |
| AuditTail.AuditRecent | src/dubbing_pipeline/api/routes_audit.py:60-91 | the shown items are this user's records at increasing lines of the file, none left out after the first, at most the clamped limit; none left out at all when the file fits and there is room |
| AuditTail.RecentAreOwn | src/dubbing_pipeline/api/routes_audit.py:60-91 | the same for every file, limit and user, stated by the places of the lines |
| AuditTail.RecentIsSuffixOfOwn | src/dubbing_pipeline/api/routes_audit.py:60-91 | so what is shown is a suffix of that user's own records in the file |
| ReleaseZip.MatchIffFilled | scripts/verify_release_zip.py:41-41 | a text matches a star pattern iff it is the pattern with some text for each star |
| ReleaseZip.PrefixGlob | scripts/verify_release_zip.py:10-25 | `prefix**` is the prefix test |
| ReleaseZip.CheckerPatterns | scripts/verify_release_zip.py:10-25 | each checker pattern is the releases prefix, implies a packer prefix, or is a packer glob |
| ReleaseZip.CheckerRule | scripts/verify_release_zip.py:28-41 | on stored names the globs say exactly: a runtime folder, or in any folder a `__pycache__` or a file with a runtime suffix |
| ReleaseZip.CheckerVerdict | scripts/verify_release_zip.py:28-41 | the verdict on any name: the same rule on the normalised name, folders excepted |
| ReleaseZip.NormMeaning | scripts/verify_release_zip.py:28-29 | normalising turns backslashes into slashes and drops the leading ones |
| ReleaseZip.OffenderMembers | scripts/verify_release_zip.py:58-66 | the offenders are exactly the normalised names of forbidden members |
| ReleaseZip.PackerRule | scripts/package_release.py:68-93 | what the packer leaves out, without globs, over all names |
| ReleaseZip.PackedMembers | scripts/package_release.py:170-178 | a name is in the archive iff it is the stored name of a file that is not left out |
| ReleaseZip.SourceFilesArePacked | scripts/package_release.py:68-93 | clean paths below `src/` outside the legacy package, caches and kept-out suffixes are packed under their own names |
| ReleaseZip.CollapsedLeadsToSamePlace | scripts/package_release.py:178-178 | normalising a path does not change where it leads |
| ReleaseZip.CollapsedShape | scripts/package_release.py:178-178 | a normal path has `..` at its front only, and none below the root |
| ReleaseZip.NothingRemains | scripts/package_release.py:178-178 | a relative path of which nothing remains is stored as a dot; a lone slash cannot be stored |
| ReleaseZip.ComponentsJoined | scripts/package_release.py:178-178 | splitting at slashes inverts joining |
| ReleaseZip.CleanNameIsStored | scripts/package_release.py:178-178 | the archive stores a name without empty, `.` and `..` components as it is |
| ReleaseZip.DotDotIsCollapsed | scripts/package_release.py:178-178 | `folder/../rest` is stored as `rest` |
| ReleaseZip.BuildZip | scripts/package_release.py:170-178 | the loop writes exactly the normalised names of the files that are not skipped, and fails on one of which nothing remains |
| ReleaseZip.VerifyZip | scripts/verify_release_zip.py:58-66 | the loop flags exactly the forbidden names, in order |
| ReleaseZip.PackedAlwaysVerifies | scripts/package_release.py:156-180 | for every list of paths that have no empty, `.` or `..` component once backslashes are read as slashes the archive is written and every member passes the checker |
| ReleaseZip.PackedVerifiesIff | scripts/package_release.py:170-178 | over all names: the archive is written and passes if and only if every packed file is stored unchanged or under a name that is not of the runtime kind |
| ReleaseZip.SlashedReleaseIsPacked | scripts/package_release.py:173-178 | the file `\releases\x` is packed as `releases/x` and then refused |
| ReleaseZip.DottedReleaseIsPacked | scripts/package_release.py:173-178 | so is the file `src/..\releases\x` |
| UserSettings.ValidatedIsCanonical | src/dubbing_pipeline/api/routes_settings.py:52-70 | an accepted value lies in its domain and submitting it again gives it back |
| Text.StripRemovesSpace | src/dubbing_pipeline/api/routes_settings.py:52-81 | stripping removes white space at both ends and nothing else |
| UserSettings.ValidatedTopicIsCanonical | src/dubbing_pipeline/api/routes_settings.py:73-81 | the same for the notification topic |
| UserSettings.AcceptedValues | src/dubbing_pipeline/api/routes_settings.py:52-70 | a value is accepted iff its stripped, lower-cased form is in the domain, and that form is stored; a speaker is kept as written |
| UserSettings.AcceptedTopics | src/dubbing_pipeline/api/routes_settings.py:73-81 | a topic is accepted iff its stripped form is in the domain |
| UserSettings.AcceptedIffValid | src/dubbing_pipeline/api/routes_settings.py:144-177 | a body is accepted iff it is an object, all its values are valid and it does not enable without a topic; its change holds exactly the normal forms |
| UserSettings.RefusedFor | src/dubbing_pipeline/api/routes_settings.py:144-177 | which error a refused body gets: the first that applies in the program's order |
| UserSettings.UserSettingsStore.GetUser | src/dubbing_pipeline/api/routes_settings.py:125-142 | returns the stored values over the defaults, for every shape of file |
| UserSettings.DefaultsShown | src/dubbing_pipeline/api/routes_settings.py:125-142 | the defaults shown when nothing readable is stored |
| UserSettings.StoredShown | src/dubbing_pipeline/api/routes_settings.py:125-142 | section by section, a dictionary is shown over the defaults and anything else is not |
| UserSettings.SavedIsSeen | src/dubbing_pipeline/api/routes_settings.py:179-201 | on every file, whatever stands in it, a save is seen as the change over what was seen before |
| UserSettings.SavedKeepsOthers | src/dubbing_pipeline/api/routes_settings.py:179-199 | and every other user's entry is kept |
| UserSettings.UserSettingsStore.UpdateUser | src/dubbing_pipeline/api/routes_settings.py:144-201 | a rejected patch changes nothing; an accepted one saves exactly its change and returns the resulting view |
| UserSettings.LastWriterWins | src/dubbing_pipeline/api/routes_settings.py:125-201 | after any updates by any users each key shows the last accepted normal form, else the default, and the time is that of the last accepted update |
| UserSettings.LastValuesInDomain | src/dubbing_pipeline/api/routes_settings.py:52-81 | accepted values stay in their domains for ever |
| UserSettings.OthersUntouched | src/dubbing_pipeline/api/routes_settings.py:179-199 | other users' settings are untouched, and a rejected update changes nobody's |
| UserSettings.EnabledWithoutTopicIff | src/dubbing_pipeline/api/routes_settings.py:176-177 | "enabled implies a topic" is broken by an accepted update iff it blanks the topic of enabled notifications without mentioning `enabled` |
| UserSettings.EnabledWithoutTopicReached | src/dubbing_pipeline/api/routes_settings.py:168-196 | two accepted updates that reach enabled notifications without a topic |

## Left out

- SQL, SQLite's own locking, schema migration and the legacy-schema insert: tables are maps with commit and rollback.
- Token signing, CSRF, password hashing, TOTP, cookies and the bearer and session branches of `current_identity`.
- Caching the identity on the request, audit events and rate limits.
- `list_invites`, `list_api_keys` and the order in which sessions are listed; `ActiveSessions` is a set.
- AuthInterleaving.LockedRunsRefineAtomicStore: the writes of one `put_recovery_codes` call are one step, since none of
  them is visible before the commit; a lock timeout is a failed call.
- In `RefreshInterleaving` a call reads the clock once, and nobody presents a token that a running call has drawn and not
  returned. That a token carries the user of its row is a hypothesis of the theorem on ended sessions.
- The scoring of a window (RMS, spectrum, thresholds): an arbitrary verdict per window. Opening and reading the file.
- `detect_op_ed`, the ffmpeg filters themselves and everything about mixing.
- A subprocess that outlives its crashed caller: a dead call writes nothing more.
- The Demucs command line, its exit text and the search for stems in other directories of the slot; `meta.json` is
  only present or absent.
- Numbers in range headers with digit separators or non-ASCII digits.
- `iter_included_files` and sample sizes; drive letters and case-insensitive globbing on Windows; names that are not
  valid Unicode.
- Values in a settings patch that are not text: the model takes the text that `str(v or "")` yields. Non-ASCII case and
  white space in settings and keys.
- The settings lock: updates are modelled one after the other.
