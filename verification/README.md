# webmanager: verified models

Dafny models of the parts of webmanager's Go backend where the logic is hardest to see
from one function at a time, and proofs of what they guarantee. `dafny verify
dfyconfig.toml` checks everything.

The models follow the source's own form: what updates fields is a class with methods
(`Detacher`, `Attempts`, `Revocations`, `NewestEntries`, `LogFile`, `Disk`, `Scanner`),
what loops is a method with a loop, and each such method is tied by its contract to a
function or predicate about which the theorems then speak. Concurrent code (the password
gate) is a state machine over its interleaved steps.

## Detach matcher (`backend/attachcmd.go`)

`DetachMatcher` is the online matcher over the terminal's input: each key of the detach
sequence has several byte encodings (`EncodingIff` says which), live prefixes are held
back, and a mismatch flushes one byte and feeds the rest again. `DetachWords` says what
is to be recognised without the matcher (a word that spells the sequence key by key,
each key taking its shortest encoding) and proves that the matcher detaches exactly on
the leftmost one. That rests on a property of these encodings, shown necessary by
`OtherEncodingsHideAWord`. `DetachReads` covers whole sessions. Between reads a
half-read escape encoding is let go ahead of keys already matched: order is kept exactly
under the condition of `ReadKeepsOrderIff`, and `EscapeOvertakesMatchedKey` is an input
for which it is not. `DetachSessions` says when a session detaches, wherever its reads
fall, without the matcher (`SessionDetachesIff`), and which bytes it has forwarded
(`SessionForwards`). To take the half-read encodings out of what was typed would not be
enough (`TakingEscapesOutIsNotEnough`).

## Password gate (`backend/internal/authgate/gate.go`)

`GateLockout` has the failure counter and its backoff, `GateKeyLocks` the interleavings
of `TryUnlock` with the ref-counted per-key locks and of fingerprint unlocks, which use
the same counters without a lock but under keys of their own: passwords stay paced
(`ConcurrentGuessingIsPaced`), failed fingerprints need not be (`PrintsAreNotPaced`).
What has failed is read off the steps of a run alone (`RunRecounts`). `GateSessions` has
the interleavings of unlocking, checking, refreshing and revoking with only a pruned
list of revoked ids for state: the lookup in that list decides whether a request
outlives the revocation of its session (`RevokedSessionsStayLocked`,
`EarlierLookupIsAccepted`). `GateClients` follows one browser through a run, and the
token of an unlock without the password (`IssuedIsAcceptedUntil`). Signatures are
abstracted (RFC 2104): a token verifies only if the gate minted it. The comment at
gate.go:64-67 says any refresh threshold below the session's idle time leaves sliding
unaffected; `SlidingWorksIff` shows how far apart visits may be for each threshold: the
idle time less the threshold.

## Log store (`backend/internal/logstore/logstore.go`)

Reading lines through a buffer that fills up (`LogLines`), the bounded heap (`LogHeap`),
pages against "sort everything and take the front" (`LogPages`, `LogQuery`), what a page
holds entry by entry (`LogAnswers`), paging with a cursor, by timestamp (`LogPaging`)
and entry by entry (`LogWalks`), and a purge that rewrites a file another process
appends to (`LogPurge`). JSON decoding is a function from a line to an entry or nothing.
Two limits of the code are stated exactly. A page with more to come that ends between
equal timestamps skips entries (`EqualStampsAreSkipped`), and one that ends at timestamp
0 starts again from the newest, without end (`NoPageEndsAtZero`); `ReadingVisitsAllIff`
says these are the only ways to miss any. A line that straddles the two reads of a purge
is filtered by halves (`StraddlingLine`, `SplitLineSurvives`). A line of exactly 1 MiB
is shown and cannot be purged (`ShownAfterPurgeIff`). The comment at logstore.go:349-353
names one instant in which an appended line can be lost; there is a second, between the
truncation and the write (`NothingElseIsLost`).

## File manager (`backend/internal/files`)

`FileSystem` is a map from paths to nodes with the operating system's own path
resolution. `PathResolve` compares the hand-written symlink walk with it: confinement,
agreement, and exactly what is rejected (`RejectedIff`). `PathRoots` is about the root's
spellings. A root written with ".." may be read as something else than it means to the
operating system (`DotsInRootMislead`; `RootReadTrueIff` says exactly when paths are
read as what they mean). path.go:65-66 says both spellings of a linked root name the
same tree; a link inside its own target can give two answers (`SpellingsCanDiffer`), and
`BothSpellingsIff` says exactly when.

`TreeChanges` and `DiskOps` have copying and moving, entry by entry, onto nothing and
onto existing trees, and the state a failed copy leaves. `CopyRuns` has the recursion of
a copy as a relation, for any two ends. Copying "/" into "/" (the default root is "/")
is the one copy beside itself that lands inside itself (`CopyNameInsideRoot`), past the
check against that, and does not end by itself (`RootCopyNeverEnds`). Every move that
succeeds is a rename, across devices and overwriting included (`MoveKeepsTree`):
`os.Rename` refuses an existing directory before it looks at anything else (os package,
`Rename`, go 1.25), so the fallback copy never merges. A copy does merge, and one with
overwrite onto a directory above its source can write into the source before it has read
it; `CopyIsOverlay` says where that is ruled out, and `CopyMissesSource` is such a copy.

## Settings mask (`backend/internal/claudecode/settingsmask.go`)

`SettingsText` has the text operations and JSON string escapes, `SettingsView` the
masked view, also printed member by member, `SettingsRestore` the replacements name by
name, `SettingsMask` masking and saving. Saving the view unedited gives the document
back exactly when the beginning of a placeholder does not occur in the document itself
(`UneditedViewRestores`), and then with every member and value
(`SavedHasTheSameMembers`).

## ssh_config and known_hosts (`backend/internal/gitconfig`)

`SshHosts` parses, prints and deletes `Host` blocks; the two regular expressions are
written out as recognisers, and `HostLineIff` and `FieldLineIff` say what they accept.
`SshHostKeys` lists the hosts with their keys and adds one.
The comments at sshhosts.go:43-46 and 160-162 say the host pattern excludes ".." and so
keeps the key in its directory; the pattern admits it (`DotsLeaveKeysDir`), and
`KeyPathInDirIff` says for which hosts the key stays there. `KeyPathListedIff` says when
a key path is listed as it was written. `KnownHosts` deletes by index of the listing.

## Project sizes (`backend/internal/projects`)

`ProjectTree` has the size walk, `ProjectSizes` what its numbers mean, `ProjectDelete`
and `ProjectScanner` the full scan and what deleting one reclaimable directory does to
it. (The package comment calls the package read-only; `DeleteReclaimable` is in it.)

## Model

| member | source | states |
|---|---|---|
| `DetachMatcher.DetachCandidates` | webmanager/backend/attachcmd.go:366-383 | the encodings of each key of the sequence, and that a text is one of them exactly if it is the byte itself or reports, in one of the two forms, the unshifted character the byte stands for |
| `DetachMatcher.EncodingIff` | webmanager/backend/attachcmd.go:359-383 | for every byte: a text is an encoding exactly if it is the byte, or CSI and the character's number in decimal without leading zeros, 97 to 122 for Ctrl with a letter and 91 to 95 for Ctrl with one of [ \ ] ^ _ |
| `DetachMatcher.Detacher.constructor` | webmanager/backend/attachcmd.go:355-357 | a new matcher has nothing matched and nothing held |
| `DetachMatcher.Detacher.MatchesKey` | webmanager/backend/attachcmd.go:385-392 | what is held is one of the current key's encodings |
| `DetachMatcher.Detacher.PrefixOfKey` | webmanager/backend/attachcmd.go:394-401 | what is held is a proper prefix of one of them |
| `DetachMatcher.Detacher.Reset` | webmanager/backend/attachcmd.go:403-407 | forgets everything held and matched |
| `DetachMatcher.Detacher.Mismatch` | webmanager/backend/attachcmd.go:454-466 | a mismatch gives up one byte and searches the rest again: output and state of one search over what was held |
| `DetachMatcher.Detacher.FeedBytes` | webmanager/backend/attachcmd.go:437-469 | from any state, the chunk leaves the output and state of one search over everything still held followed by the chunk; the self-recursion terminates |
| `DetachMatcher.Detacher.Feed` | webmanager/backend/attachcmd.go:425-435 | the same, then a half-read escape encoding is let go |
| `DetachMatcher.ScanConserves` | webmanager/backend/attachcmd.go:437-469 | until a detach, forwarded, matched and held bytes are the input in order, and what is held back is a live start |
| `DetachMatcher.ScanAppend` | webmanager/backend/attachcmd.go:437-469 | how the input is cut into chunks makes no difference to output, state or detach |
| `DetachWords.CompletesIffWordBegins` | webmanager/backend/attachcmd.go:385-401 | matching from a position succeeds exactly when a word of the sequence begins there |
| `DetachWords.EncodingsEndTell` | webmanager/backend/attachcmd.go:366-383 | no byte both ends an encoding of a key and continues an unfinished one |
| `DetachWords.NoOvertaking` | webmanager/backend/attachcmd.go:437-469 | a later start never completes while an earlier one is still live |
| `DetachWords.LiveMeansNoWord` | webmanager/backend/attachcmd.go:450-452 | bytes are held back only while no word has begun anywhere among them to completion |
| `DetachWords.DetachesExactlyOnLeftmostWord` | webmanager/backend/attachcmd.go:409-469 | for every sequence and input: detaches exactly when a word begins somewhere, having forwarded exactly what precedes the leftmost; otherwise nothing is lost or reordered |
| `DetachWords.OtherEncodingsHideAWord` | webmanager/backend/attachcmd.go:340-343 | with encodings that lack that property the naive matcher misses a word |
| `DetachReads.NothingHeldBetweenReads` | webmanager/backend/attachcmd.go:419-435 | nothing is held from one read to the next, so Escape is never delayed |
| `DetachReads.ReadKeepsOrderIff` | webmanager/backend/attachcmd.go:425-435 | a read's output followed by the retained keys is the input in order exactly when nothing was let go or the retained bytes merely repeat it |
| `DetachReads.OrderKeptAtFirstKey` | webmanager/backend/attachcmd.go:425-435 | order is kept whenever no key is matched yet |
| `DetachReads.SessionConservesBytes` | webmanager/backend/attachcmd.go:425-469 | over any sequence of reads no byte is lost or made up before the detach |
| `DetachReads.OneKeySession` | webmanager/backend/attachcmd.go:419-469 | a one-key sequence: every read is forwarded whole at once, up to the leftmost word of the first read that has one |
| `DetachReads.SessionIsOneSearch` | webmanager/backend/attachcmd.go:419-469 | if no read ends inside an escape encoding, a session is one search of everything typed |
| `DetachSessions.LiveIffBrokenOff` | webmanager/backend/attachcmd.go:385-401 | matching from a position is still under way exactly when a word begun there is broken off by the end of the input |
| `DetachSessions.SessionDetachesIff` | webmanager/backend/attachcmd.go:425-469 | wherever the reads fall: a session detaches exactly when in some read a word begins in what was kept back followed by that read; kept back is the leftmost word broken off by the end of a read, without a half-read escape encoding |
| `DetachSessions.SessionForwards` | webmanager/backend/attachcmd.go:425-469 | for any sequence and wherever the reads fall, the bytes forwarded: of each read what precedes the word broken off at its end and then its unfinished encoding, and of the read that detaches what precedes the leftmost word |
| `DetachSessions.TakingEscapesOutIsNotEnough` | webmanager/backend/attachcmd.go:425-435 | an input whose text without the half-read encodings holds a word, and no detach |
| `DetachReads.EscapeOvertakesMatchedKey` | webmanager/backend/attachcmd.go:430-433 | an input on which Escape overtakes a matched key, and a detach without any word typed |
| `GateLockout.Attempts.RateLimited` | webmanager/backend/internal/authgate/gate.go:149-162 | locked exactly before the key's deadline, and for how long |
| `GateLockout.Attempts.RecordFailure` | webmanager/backend/internal/authgate/gate.go:164-190 | the count goes up by one, and from the fifth on the doubling loop equals 5s times a power of two capped at 300s, with no overflow |
| `GateLockout.Attempts.RecordSuccess` | webmanager/backend/internal/authgate/gate.go:192-197 | forgets the key and no other |
| `GateLockout.BackoffMonotone` | webmanager/backend/internal/authgate/gate.go:179-188 | the backoff lies between 5s and 300s and never shrinks with more failures |
| `GateLockout.BackoffDoubles` | webmanager/backend/internal/authgate/gate.go:179-188 | 5s from the fifth failure on, doubled by each further one, up to 300s |
| `GateLockout.LockoutPace` | webmanager/backend/internal/authgate/gate.go:164-190 | failures that respect the lockout: from the 5th to the n-th at least 315+300(n-11) seconds |
| `GateKeyLocks.LocksInvStep` | webmanager/backend/internal/authgate/gate.go:126-147 | every step of every request keeps the lock map, the counts and the ownership consistent |
| `GateKeyLocks.MutualExclusion` | webmanager/backend/internal/authgate/gate.go:120-147 | under every interleaving at most one request per key is between lock and unlock |
| `GateKeyLocks.MapEntryIffInUse` | webmanager/backend/internal/authgate/gate.go:126-147 | the map has an entry exactly while the key has users, the count is their number, and they all share one lock object |
| `GateKeyLocks.NoDeadlock` | webmanager/backend/internal/authgate/gate.go:126-147 | while any request is in the protocol, one can take its next step |
| `GateKeyLocks.LockoutInvStep` | webmanager/backend/internal/authgate/gate.go:347-401 | every step, of passwords and fingerprints, keeps the password counters true to what happened and every password check good until its outcome is recorded |
| `GateKeyLocks.RunKeepsInv` | webmanager/backend/internal/authgate/gate.go:120-197 | both invariants hold in every state of every run of TryUnlock, CheckAttempt, RecordFailure and RecordSuccess |
| `GateKeyLocks.RunRecounts` | webmanager/backend/internal/authgate/gate.go:164-197 | clock, keys and failures in every state are what the steps say: the failures of a key are the times of its wrong passwords or fingerprints since its last success, and a verification error counts for nothing |
| `GateKeyLocks.ConcurrentGuessingIsPaced` | webmanager/backend/internal/authgate/gate.go:120-190 | with any number of concurrent requests, and whatever fingerprint unlocks do, the failed passwords of one key since its last success, read off the steps of the run, pace themselves: the n-th comes 315+300(n-11) seconds after the fifth |
| `GateKeyLocks.RefusedIffWithinBackoff` | webmanager/backend/internal/authgate/gate.go:347-354 | a request is refused exactly within the backoff of the last of five or more failures of its key, as the steps of the run record them; otherwise it goes on to the password |
| `GateKeyLocks.PrintRefusedIffWithinBackoff` | webmanager/backend/internal/authgate/gate.go:389-397 | so is a fingerprint, on the failures of its own client |
| `GateKeyLocks.PrintsAreNotPaced` | webmanager/backend/internal/authgate/gate.go:389-401 | without the lock nothing is paced: runs in which any number of failed fingerprints are recorded at one moment |
| `GateSessions.Revocations.Revoke` | webmanager/backend/internal/authgate/gate.go:431-448 | drops exactly the entries past their time and adds the session with its hard cap |
| `GateSessions.InvStep` | webmanager/backend/internal/authgate/gate.go:207-303 | every step keeps: tokens of one session share one origin, and a revoked session is on the list or past its cap |
| `GateSessions.RunInv` | webmanager/backend/internal/authgate/gate.go:207-303 | so in every state of every run |
| `GateSessions.RunCarries` | webmanager/backend/internal/authgate/gate.go:244-303 | clock and requests in every state are what the steps say: purpose and token as a request brought them |
| `GateSessions.RevokedIffLocked` | webmanager/backend/internal/authgate/gate.go:427-448 | a session is revoked exactly if a request that came with one of its tokens has locked it; no other session is |
| `GateSessions.SessionLived` | webmanager/backend/internal/authgate/gate.go:199-229 | every session was started by a typed password, or by an unlock without one less than 48h after it, and last slid by a request with a token of it |
| `GateSessions.RevokedSessionsStayLocked` | webmanager/backend/internal/authgate/gate.go:427-455 | once a session is revoked no request whose lookup comes later is accepted, though it began before: no copy, none minted by a racing refresh, none after the list forgot it |
| `GateSessions.LaterRequestsStayLocked` | webmanager/backend/internal/authgate/gate.go:427-448 | in particular no request that begins later |
| `GateSessions.EarlierLookupIsAccepted` | webmanager/backend/internal/authgate/gate.go:299-303 | a run in which a request looked up before the revocation is accepted after it |
| `GateSessions.AcceptedWithinBounds` | webmanager/backend/internal/authgate/gate.go:320-387 | an accepted token is less than 12h past the step that started its session, less than 48h past the password that rests on, less than 10 minutes past the start or a later refresh |
| `GateClients.ClientIsServed` | webmanager/backend/internal/authgate/gate.go:497-531 | in every run, while its session is not revoked: a client sending the cookie it last got is let through at every visit exactly when the clock readings of its visits keep each within its deadline |
| `GateClients.SteadyIsServed` | webmanager/backend/internal/authgate/gate.go:497-531 | for any refresh threshold, visits at most sessionTTL less the threshold apart are served until the hard cap |
| `GateClients.SteadyClientStaysUnlocked` | webmanager/backend/internal/authgate/gate.go:497-531 | so in every run a client that unlocks and comes back within 5 minutes each time stays unlocked until the hard cap |
| `GateClients.SlidingWorksIff` | webmanager/backend/internal/authgate/gate.go:64-68 | for every threshold: a client visiting at least every gap is never idled out before the hard cap exactly when the gap is at most sessionTTL less the threshold (or less the second tokens are cut to) |
| `GateClients.IssuedFromPassword` | webmanager/backend/internal/authgate/gate.go:366-387 | an unlock without the password mints exactly one token if the password was typed less than 48h ago and not in the future, else none: fresh now, for a session of 12h or until those 48h are over |
| `GateClients.MintsExactly` | webmanager/backend/internal/authgate/gate.go:199-229 | what each step of a run mints: a session's first token, or the next of a cookie 5 minutes old; nothing else |
| `GateClients.IssuedIsAcceptedUntil` | webmanager/backend/internal/authgate/gate.go:305-387 | in every run a check of that token is accepted exactly until that end or 10 minutes without a refresh, unless the session is locked |
| `Sorting.SortDescending` | webmanager/backend/internal/logstore/logstore.go:241-241 | some descending permutation, equal keys in any order |
| `LogLines.EndLine` | webmanager/backend/internal/logstore/logstore.go:264-279 | what is reported at the end of a line: nothing for an empty one, nil for one over the limit, else the line |
| `LogLines.EachLine` | webmanager/backend/internal/logstore/logstore.go:245-287 | for every stream and every place the buffer fills up: exactly the non-empty lines in order, nil for each overlong one |
| `LogHeap.RootIsOldest` | webmanager/backend/internal/logstore/logstore.go:176-178 | the root of the heap is its oldest entry |
| `LogHeap.SiftUpStep` | webmanager/backend/internal/logstore/logstore.go:225-227 | a swap with the parent moves the one place out of order up |
| `LogHeap.SiftDownStep` | webmanager/backend/internal/logstore/logstore.go:228-230 | a swap with the oldest child moves it down |
| `LogHeap.NewestEntries.Up` | webmanager/backend/internal/logstore/logstore.go:225-227 | sifting up restores the heap and keeps the entries |
| `LogHeap.NewestEntries.Down` | webmanager/backend/internal/logstore/logstore.go:228-230 | sifting down restores the heap or changes nothing |
| `LogHeap.NewestEntries.Push` | webmanager/backend/internal/logstore/logstore.go:226-227 | one more entry, still a heap |
| `LogHeap.NewestEntries.Fix` | webmanager/backend/internal/logstore/logstore.go:228-230 | a heap again after its entry at i was replaced |
| `LogHeap.NewestEntries.ReplaceOldest` | webmanager/backend/internal/logstore/logstore.go:228-230 | the oldest entry goes, the new one is in |
| `LogQuery.Consider` | webmanager/backend/internal/logstore/logstore.go:225-231 | the heap stays the newest max of all entries seen |
| `LogQuery.KeepNewest` | webmanager/backend/internal/logstore/logstore.go:206-232 | over all lines of a file, the newest max of the matching entries |
| `LogQuery.ReadFile` | webmanager/backend/internal/logstore/logstore.go:195-243 | the newest max matching entries of the file, newest first, whatever a read error cut off |
| `LogQuery.OutOfRangeIsEmpty` | webmanager/backend/internal/logstore/logstore.go:111-125 | a day the filter leaves out has no match |
| `LogQuery.CandidatesSuffice` | webmanager/backend/internal/logstore/logstore.go:111-125 | the filtered days yield the same entries as all days |
| `LogQuery.DaysToRead` | webmanager/backend/internal/logstore/logstore.go:114-126 | the candidate days, newest first |
| `LogPages.PageOverflows` | webmanager/backend/internal/logstore/logstore.go:145-166 | once more than a page is in hand it is the newest limit+1 of everything, so the older days can be left unread |
| `LogPages.PageHasRoom` | webmanager/backend/internal/logstore/logstore.go:145-160 | until then everything so far is in hand, newest first |
| `LogQuery.ReadDay` | webmanager/backend/internal/logstore/logstore.go:151-158 | one day's newest entries; a file that is gone has none |
| `LogQuery.ReadDays` | webmanager/backend/internal/logstore/logstore.go:144-166 | what the loop with its early end has gathered |
| `LogPages.TruncatedPage` | webmanager/backend/internal/logstore/logstore.go:168-172 | cutting to the limit leaves the newest limit, and there are more |
| `LogQuery.ReadEntries` | webmanager/backend/internal/logstore/logstore.go:94-174 | if each file holds only its own day: the newest limit of all matching entries of all files, newest first, and hasMore exactly when there are more; an error only for an unreadable file of a day in range, and always for one unless the page is full |
| `LogAnswers.EachRestrictionNarrows` | webmanager/backend/internal/logstore/logstore.go:128-142 | each restriction, application, level, start, end and cursor, leaves of what would match without it the entries it names, in order |
| `LogAnswers.WantedIsMatched` | webmanager/backend/internal/logstore/logstore.go:128-142 | an entry of the lines is matched, as often as it is there, exactly if it meets every restriction |
| `LogAnswers.PageAnswers` | webmanager/backend/internal/logstore/logstore.go:94-174 | the page holds nothing the query does not want, nothing more often than the files do, and leaves out of what is wanted only entries no newer than any on it, when it is full and says there is more |
| `LogAnswers.InRangeIff` | webmanager/backend/internal/logstore/logstore.go:111-125 | a day is read exactly if it may hold an entry not before the start and one not after the end |
| `LogPages.PageTimestamps` | webmanager/backend/internal/logstore/logstore.go:94-99 | such a page has the timestamps of sorting everything and taking limit |
| `LogPaging.CursorPage` | webmanager/backend/internal/logstore/logstore.go:94-174 | the page for a cursor, in terms of all timestamps that match without it |
| `LogPaging.WalkUnique` | webmanager/backend/internal/logstore/logstore.go:94-174 | asking on until hasMore is false shows one and the same sequence of pages |
| `LogPaging.EqualStampsAreSkipped` | webmanager/backend/internal/logstore/logstore.go:141-173 | two entries at one instant, one to a page: the one walk there is shows a single one |
| `LogPaging.NoPageEndsAtZero` | webmanager/backend/internal/logstore/logstore.go:141-142 | in a walk that ends no page with more to come ends at timestamp 0 |
| `LogPaging.ZeroStampNeverEnds` | webmanager/backend/internal/logstore/logstore.go:141-142 | so if the first page does, asking on never ends |
| `LogWalks.CleanPage` | webmanager/backend/internal/logstore/logstore.go:141-173 | a page that ends at such a boundary and what lies beyond its cursor are together all there was |
| `LogWalks.ReadingVisitsAllIff` | webmanager/backend/internal/logstore/logstore.go:94-174 | walking the pages of ReadEntries by cursor: every walk shows each matching entry exactly once, newest first, if no page with more to come ends between equal timestamps or at 0; otherwise none does |
| `LogWalks.DistinctEntriesPageCleanly` | webmanager/backend/internal/logstore/logstore.go:141-173 | distinct nonzero timestamps are enough |
| `LogPurge.EachRawLine` | webmanager/backend/internal/logstore/logstore.go:407-424 | every line with its newline, the last one maybe without |
| `LogPurge.Filter` | webmanager/backend/internal/logstore/logstore.go:370-383 | keeps exactly the lines that are not the application's, and whether any was |
| `LogPurge.KeptLines` | webmanager/backend/internal/logstore/logstore.go:342-345 | the result's lines are the original's without the application's, whole and in order |
| `LogPurge.ShownAfterPurgeIff` | webmanager/backend/internal/logstore/logstore.go:237-287 | after a purge reading shows exactly the other lines, and of the application's those of 1 MiB to the byte that end in a newline: reading measures a line without its newline (logstore.go:245-287), the purge with it (407-424) |
| `LogPurge.KeptIffNothingDropped` | webmanager/backend/internal/logstore/logstore.go:345-347 | the content is byte-identical exactly when nothing matched |
| `LogPurge.PurgeIsIdempotent` | webmanager/backend/internal/logstore/logstore.go:342-383 | purging again changes nothing |
| `LogPurge.KeptAppend` | webmanager/backend/internal/logstore/logstore.go:397-399 | after a line end, filtering two parts is filtering the whole |
| `LogPurge.StraddlingLine` | webmanager/backend/internal/logstore/logstore.go:384-399 | a line cut by the first read's end: two passes equal one exactly when both halves and the whole are dropped or all kept |
| `LogPurge.SplitLineSurvives` | webmanager/backend/internal/logstore/logstore.go:384-399 | a line of the application's cut so that neither half parses as its own: it is kept |
| `LogPurge.LogFile.PurgeApp` | webmanager/backend/internal/logstore/logstore.go:342-405 | the file afterwards for every branch and everything appended meanwhile: untouched, replaced, or rewritten in place |
| `LogPurge.NothingElseIsLost` | webmanager/backend/internal/logstore/logstore.go:349-353 | if the first read ended at a line end: every line the reads saw but the application's is in the rewritten file, whole and in order, whatever is appended after the truncation; of that the first bytes are overwritten, unless nothing was kept |
| `FileSystem.WalkIsPlain` | webmanager/backend/internal/files/path.go:173-180 | resolving a path to its end gives a link-free path |
| `PathResolve.WithinIffPrefix` | webmanager/backend/internal/files/path.go:41-53 | the check is exactly the prefix relation on path components |
| `PathRoots.CleaningIsWalking` | webmanager/backend/internal/files/path.go:67-75 | where there is no link, cleaning a path is what the operating system does with it |
| `PathRoots.AcceptedIff` | webmanager/backend/internal/files/path.go:67-82 | a request is accepted lexically exactly if it is absolute, or empty, which asks for the root, and cleaned it is at or below the root in a spelling |
| `PathRoots.EmptyPathIsRoot` | webmanager/backend/internal/files/path.go:67-187 | the empty path is the real root; for a root that is a link inside its own target, what the way to the link leads to. An operation on the entry itself refuses it |
| `PathResolve.SplitUnderRoot` | webmanager/backend/internal/files/path.go:84-106 | the real root and the components under whichever spelling fits first |
| `PathResolve.ResolveLinks` | webmanager/backend/internal/files/path.go:138-187 | the loop, against its recursive form |
| `PathResolve.FollowIsConfined` | webmanager/backend/internal/files/path.go:108-132 | an accepted path is inside the root, no link is left on it, it is where the operating system arrives if anywhere, and for a missing tail it is where the existing front leads, followed by that tail |
| `PathResolve.EscapeIsRejected` | webmanager/backend/internal/files/path.go:113-119 | a path with any front that leads out of the root is rejected |
| `PathResolve.RejectedIff` | webmanager/backend/internal/files/path.go:138-187 | a path is rejected exactly when the operating system, reading it through its links, gets to a place where the next component blocks: not in a directory, or a link that dangles, loops or leads out; a missing tail does not |
| `PathRoots.RequestRejectedIff` | webmanager/backend/internal/files/path.go:55-187 | a request that reads through its path is refused exactly lexically, for want of a root, or where a component blocks |
| `PathRoots.EntryRejectedIff` | webmanager/backend/internal/files/path.go:55-223 | a request that acts on the entry itself is refused exactly lexically, for want of a root, for being the root, or where a component before the last blocks |
| `PathResolve.LexicallyUnderRoot` | webmanager/backend/internal/files/path.go:55-82 | what the lexical check accepts lies under one of the root's spellings |
| `PathResolve.ConfinedIsInside` | webmanager/backend/internal/files/path.go:84-187 | under either spelling, for missing tails too: inside the real root, link-free, and what the path denotes from there |
| `PathResolve.ConfinedAgreesWithOS` | webmanager/backend/internal/files/path.go:84-187 | and what the path means to the operating system, if the spelling of the root it is under resolves to the real root or nowhere |
| `PathResolve.RootSpells` | webmanager/backend/internal/files/path.go:88-97 | the real root does, and so does the configured one unless it is written with ".." |
| `PathRoots.RootReadTrueIff` | webmanager/backend/internal/files/path.go:84-187 | every accepted path means to the operating system what it is read as exactly when the cleaned root lies under the real one or resolves to it wherever it resolves |
| `PathRoots.DotsInRootMislead` | webmanager/backend/internal/files/path.go:95-96 | with a root written with ".." an accepted path can mean another file |
| `PathResolve.EscapingRequestIsRejected` | webmanager/backend/internal/files/path.go:113-119 | no request through an escaping link is accepted |
| `PathRoots.BothSpellingsIff` | webmanager/backend/internal/files/path.go:65-66 | either spelling of a linked root gives the same answers exactly when the two are apart, or the link lies in its own target and the way to it from there leads back to the root |
| `PathRoots.SpellingsCanDiffer` | webmanager/backend/internal/files/path.go:65-66 | a disk where one spelling of a path is accepted and the other rejected |
| `PathResolve.ResolveForAccess` | webmanager/backend/internal/files/path.go:242-248 | a resolution that follows the last component too |
| `PathResolve.ResolveNonRoot` | webmanager/backend/internal/files/path.go:203-223 | the entry itself, never the root |
| `PathResolve.DestinationShape` | webmanager/backend/internal/files/mutate.go:152-158 | a destination resolved in a resolved directory is that entry or a link-free path, in an existing directory |
| `TreeChanges.ProgressStep` | webmanager/backend/internal/files/mutate.go:273-277 | each entry copied lays exactly its subtree over the destination |
| `TreeChanges.ProgressComplete` | webmanager/backend/internal/files/mutate.go:259-279 | after the last entry the destination is the source laid over it, nothing else changed |
| `TreeChanges.PartwayStep` | webmanager/backend/internal/files/mutate.go:273-277 | a copy that stops leaves every path as before or as copied |
| `TreeChanges.MoveBranchesAgree` | webmanager/backend/internal/files/mutate.go:165-178 | a rename and a copy followed by removal leave the same tree, unless there is a directory at the destination |
| `TreeChanges.NoDirIsNotAbove` | webmanager/backend/internal/files/mutate.go:162-164 | source and a destination that is no directory are apart once the into-itself check passed |
| `TreeChanges.ApartIff` | webmanager/backend/internal/files/mutate.go:162-164 | no copied entry lands in the source exactly when the source is not inside the destination, or does not hold once more the way down from the destination to itself |
| `CopyRuns.FreshCopy` | webmanager/backend/internal/files/mutate.go:249-292 | a copy to where nothing is fails only for want of a temporary name, and changes nothing else |
| `CopyRuns.NestedCopyNeverEnds` | webmanager/backend/internal/files/mutate.go:249-292 | a copy of a directory to a new entry of its own does not end at any depth of recursion: the directory just made is among the entries then read, at every level |
| `DiskOps.Disk.ReplaceWith` | webmanager/backend/internal/files/mutate.go:312-360 | exactly dest changes; fails exactly when every temporary name is taken |
| `DiskOps.Disk.CopyPath` | webmanager/backend/internal/files/mutate.go:249-292 | for a source kept apart: it is laid over the destination, or a failure with its cause and a tree that is part way; for any other, a run of the recursion that changes nothing outside the destination |
| `DiskOps.Disk.CopyDir` | webmanager/backend/internal/files/mutate.go:259-279 | the same for a directory, merged into an existing one |
| `DiskOps.Disk.CopyEntries` | webmanager/backend/internal/files/mutate.go:269-277 | the loop over the entries, in any order |
| `DiskOps.Disk.SystemRename` | webmanager/backend/internal/files/mutate.go:71-71 | os.Rename: when it succeeds and what it does; any existing directory at the destination is refused, before devices matter |
| `DiskOps.Disk.Rename` | webmanager/backend/internal/files/mutate.go:65-87 | succeeds exactly on one device onto what it may replace: without overwrite nothing, with overwrite no directory and by no directory; otherwise why not, "exists" whenever something is there and overwrite is not set |
| `DiskOps.Disk.MoveResolved` | webmanager/backend/internal/files/mutate.go:159-178 | every outcome of a move: itself, into itself, refused without effect and why, renamed on one device or across, or stopped part way for want of a temporary name |
| `DiskOps.MoveKeepsTree` | webmanager/backend/internal/files/mutate.go:147-179 | every move that succeeds, across devices and overwriting included: the source's whole tree is at the destination and nothing else, nothing is left at the source, nothing elsewhere has changed |
| `DiskOps.Disk.CopyName` | webmanager/backend/internal/files/mutate.go:226-247 | the first free name, or an error when all 999 are taken |
| `DiskOps.CandidateBeside` | webmanager/backend/internal/files/mutate.go:228-243 | a copy's name is a sibling apart from the original |
| `DiskOps.CopyNameKeepsExtension` | webmanager/backend/internal/files/mutate.go:226-240 | a copy of a file keeps its extension last; the name of anything else is lengthened at the end |
| `DiskOps.CopySuffixIs` | webmanager/backend/internal/files/mutate.go:235-239 | " (copy)" and then " (copy n)" with the number n in decimal, each name different |
| `DiskOps.Disk.CopyResolved` | webmanager/backend/internal/files/mutate.go:209-223 | every outcome of a copy: beside itself, into itself, onto something, laid over; a run of the recursion where the source is not kept apart |
| `DiskOps.CopyIsOverlay` | webmanager/backend/internal/files/mutate.go:209-223 | a copy that succeeds has laid the source over the destination, unless the source lies inside it and holds once more the way down to itself |
| `CopyOntoAncestor.CopyMissesSource` | webmanager/backend/internal/files/mutate.go:197-224 | an input of that kind: copying /a/b/a onto /a with overwrite succeeds, /a/x is not what /a/b/a/x was, and what that was is nowhere any more |
| `DiskOps.CopyOntoNothing` | webmanager/backend/internal/files/mutate.go:209-223 | a copy that succeeds onto nothing puts the source's tree there and changes nothing else |
| `DiskOps.RootCopyNeverEnds` | webmanager/backend/internal/files/mutate.go:197-224 | with root "/", a request to copy "/" into "/" resolves to "/" at both ends, and its copy to the first free name does not end at any depth |
| `DiskOps.Disk.ResolveDestDir` | webmanager/backend/internal/files/mutate.go:103-119 | a link-free directory inside the root, or why not |
| `DiskOps.Disk.MoveItem` | webmanager/backend/internal/files/mutate.go:147-179 | both ends inside the root, or nothing happens; then the outcome of the move |
| `DiskOps.Disk.CopyItem` | webmanager/backend/internal/files/mutate.go:197-224 | both ends inside the root, or nothing happens; then the outcome of the copy |
| `SettingsText.TailDetermines` | webmanager/backend/internal/claudecode/settingsmask.go:19-37 | a placeholder's text determines its name, whatever follows it |
| `SettingsText.EscIsFit` | webmanager/backend/internal/claudecode/settingsmask.go:19-37 | a name's JSON code has no character that must be escaped, with or without HTML escaping, and is as short as it can be |
| `SettingsText.UnescapedFinds` | webmanager/backend/internal/claudecode/settingsmask.go:106-106 | folding the escaped bracket finds both spellings of a placeholder and nothing else |
| `SettingsText.PlaceholderParts` | webmanager/backend/internal/claudecode/settingsmask.go:17-37 | the JSON text of a placeholder, with or without HTML escapes, begins with the mark the code looks for |
| `SettingsRestore.BeginsInFilled` | webmanager/backend/internal/claudecode/settingsmask.go:90-97 | the beginning of a placeholder found outside one would be found in the real document too |
| `SettingsRestore.SpellingReplaced` | webmanager/backend/internal/claudecode/settingsmask.go:90-97 | replacing one name's placeholder, in either spelling, in the whole text fills exactly the slots of that name in that spelling |
| `SettingsRestore.NamesReplaced` | webmanager/backend/internal/claudecode/settingsmask.go:98-105 | in any order, replacing name after name is one simultaneous substitution, of both spellings |
| `SettingsRestore.RestoreEnv` | webmanager/backend/internal/claudecode/settingsmask.go:98-102 | the loop over the env map |
| `SettingsRestore.RestoreHidden` | webmanager/backend/internal/claudecode/settingsmask.go:79-115 | never outputs a placeholder in either spelling; a text without any is returned unchanged; an error names the one left |
| `SettingsView.ViewIsPrinted` | webmanager/backend/internal/claudecode/settingsmask.go:50-77 | the view is the object printed member by member: every variable and the helper as its placeholder, every other member with its value |
| `SettingsView.ShownIsPrinted` | webmanager/backend/internal/claudecode/settingsmask.go:50-77 | with the values put in place it is the object printed with its real values |
| `SettingsMask.MaskEnv` | webmanager/backend/internal/claudecode/settingsmask.go:64-66 | every env value becomes its placeholder |
| `SettingsMask.MaskSettings` | webmanager/backend/internal/claudecode/settingsmask.go:50-77 | the masked view, for exactly the documents that can be masked: the document's members, printed with placeholders for the values of env and for apiKeyHelper |
| `SettingsMask.ViewHidesCredentials` | webmanager/backend/internal/claudecode/settingsmask.go:50-77 | documents that differ in credentials only have the same view |
| `SettingsMask.RestoreIsSubstitution` | webmanager/backend/internal/claudecode/settingsmask.go:79-115 | any text of fixed pieces and placeholders in either spelling: every value in its place if all names are known, an error otherwise |
| `SettingsMask.NeverWritesPlaceholder` | webmanager/backend/internal/claudecode/settingsmask.go:79-83 | what is written holds no placeholder |
| `SettingsMask.UneditedViewRestores` | webmanager/backend/internal/claudecode/settingsmask.go:50-115 | saving the unedited view writes the document, printed with all its values, exactly when no placeholder's beginning occurs in it |
| `SettingsMask.SavedHasTheSameMembers` | webmanager/backend/internal/claudecode/settingsmask.go:50-115 | read back, that document has the same members with the same values: variables and helper to the letter, the others indented |
| `SshHosts.HostLineIff` | webmanager/backend/internal/gitconfig/sshhosts.go:40-40 | a line is a Host line exactly if it is the word Host in any case, spaces, and one word, with spaces around |
| `SshHosts.FieldLineIff` | webmanager/backend/internal/gitconfig/sshhosts.go:97-103 | a line gives a field's value exactly if it is the key in any case, spaces and that value, with spaces around; of a value that is all spaces, the last one |
| `SshHosts.UnquotedSplits` | webmanager/backend/internal/gitconfig/sshhosts.go:101-101 | all quotes around a value go, and nothing else |
| `SshHosts.ParseSSHConfig` | webmanager/backend/internal/gitconfig/sshhosts.go:73-95 | the loop, against the recursive parse |
| `SshHosts.ParsedShape` | webmanager/backend/internal/gitconfig/sshhosts.go:64-95 | a preamble without a host, then one block per Host line, bodies free of Host lines |
| `SshHosts.ExtractField` | webmanager/backend/internal/gitconfig/sshhosts.go:97-105 | the first line that has the field |
| `SshHosts.HostLineRecognised` | webmanager/backend/internal/gitconfig/sshhosts.go:40-40 | a printed Host line is recognised with its host |
| `SshHosts.BlocksReread` | webmanager/backend/internal/gitconfig/sshhosts.go:222-230 | printed blocks are parsed back, with one blank line more at the end |
| `SshHosts.PrintReread` | webmanager/backend/internal/gitconfig/sshhosts.go:222-230 | the same for a whole file, with or without a preamble |
| `SshHosts.PrintBlocks` | webmanager/backend/internal/gitconfig/sshhosts.go:222-230 | the printing loops |
| `SshHosts.RemoveHost` | webmanager/backend/internal/gitconfig/sshhosts.go:207-217 | every block of the host goes, whether there was one, and the last one's key file |
| `SshHosts.DeleteSSHHost` | webmanager/backend/internal/gitconfig/sshhosts.go:198-240 | the new file, or not found |
| `SshHosts.DeleteReread` | webmanager/backend/internal/gitconfig/sshhosts.go:64-67 | re-reading after a delete: the old blocks without that host's, the others verbatim but for one blank line; the listing without that host |
| `SshHostKeys.ListSSHHosts` | webmanager/backend/internal/gitconfig/sshhosts.go:107-133 | an entry for each block with a host, in order, with the public key beside its identity file |
| `SshHostKeys.ValidIffPatterns` | webmanager/backend/internal/gitconfig/sshhosts.go:47-62 | valid is exactly what the three regular expressions match, by their character classes as written |
| `SshHostKeys.KeyPathInDirIff` | webmanager/backend/internal/gitconfig/sshhosts.go:160-163 | for every host that validates, the key path is an entry of keysDir exactly when the host is neither "." nor ".." |
| `SshHostKeys.PathTextReads` | webmanager/backend/internal/gitconfig/sshhosts.go:160-176 | the key path as written is absolute, and read as a path it is that path |
| `SshHostKeys.DotsLeaveKeysDir` | webmanager/backend/internal/gitconfig/sshhosts.go:43-47 | the host ".." validates, and its key path is the parent of keysDir |
| `SshHostKeys.AddSSHHost` | webmanager/backend/internal/gitconfig/sshhosts.go:135-196 | what is appended, with the key path of keysDir and host, and each refusal in order |
| `SshHostKeys.AddReread` | webmanager/backend/internal/gitconfig/sshhosts.go:178-187 | re-reading after an add: the old blocks and then the new one |
| `SshHostKeys.NewEntry` | webmanager/backend/internal/gitconfig/sshhosts.go:97-105 | the new block's fields read back as the values given, the key path without quotes and trailing spaces |
| `SshHostKeys.AddThenDelete` | webmanager/backend/internal/gitconfig/sshhosts.go:135-240 | an add lists the new host last, its key path as given unless the host is "." or ".."; deleting it again restores the listing |
| `SshHostKeys.KeyPathListedIff` | webmanager/backend/internal/gitconfig/sshhosts.go:178-195 | an added host is listed with the key path it was given exactly when that has no line break |
| `KnownHosts.LineReads` | webmanager/backend/internal/gitconfig/knownhosts.go:43-79 | what a line of words is: nothing if it is empty, a comment or more than one line; else, after a marker, the first word is the host and the rest, of at least two words, the key |
| `KnownHosts.EveryLineHasWords` | webmanager/backend/internal/gitconfig/knownhosts.go:44-61 | and every line is one of words between spaces |
| `KnownHosts.RawReparses` | webmanager/backend/internal/gitconfig/knownhosts.go:43-79 | an entry's raw text is one line that parses to the same entry |
| `KnownHosts.ListKnownHosts` | webmanager/backend/internal/gitconfig/knownhosts.go:84-101 | the entries of the lines that parse, in order |
| `KnownHosts.LineOfUnique` | webmanager/backend/internal/gitconfig/knownhosts.go:128-131 | an index names one line of the file |
| `KnownHosts.DropEntry` | webmanager/backend/internal/gitconfig/knownhosts.go:152-165 | leaves out exactly that line, every other one as it is |
| `KnownHosts.DeleteKnownHost` | webmanager/backend/internal/gitconfig/knownhosts.go:139-172 | succeeds exactly for an index of the listing |
| `KnownHosts.DeleteRemovesExactly` | webmanager/backend/internal/gitconfig/knownhosts.go:128-172 | the listing loses exactly that entry, the file exactly its line |
| `KnownHosts.AddKnownHost` | webmanager/backend/internal/gitconfig/knownhosts.go:103-126 | the line validated, trimmed and appended on a line of its own |
| `KnownHosts.AddThenDelete` | webmanager/backend/internal/gitconfig/knownhosts.go:103-172 | an add lists the new entry last; deleting it gives the old file back, its last line ended |
| `ProjectTree.DirSize` | webmanager/backend/internal/projects/walk.go:106-138 | the bytes of a directory's whole subtree |
| `ProjectTree.ScanNamed` | webmanager/backend/internal/projects/walk.go:65-101 | one entry: skipped, counted, reclaimable, or descended into |
| `ProjectTree.ScanDir` | webmanager/backend/internal/projects/walk.go:47-104 | size, newest file and reclaimable directories of a tree |
| `ProjectSizes.TreeAttributed` | webmanager/backend/internal/projects/walk.go:47-104 | the total is the reclaimable bytes and every byte in neither those nor a .git; with .git it is everything |
| `ProjectSizes.TreeLatest` | webmanager/backend/internal/projects/walk.go:47-104 | the time is that of the newest file below neither a .git nor a pattern's directory; links do not count |
| `ProjectSizes.TreeListed` | webmanager/backend/internal/projects/walk.go:78-86 | the list is exact: each topmost directory with a pattern's name, with its subtree's size |
| `ProjectSizes.TreeApart` | webmanager/backend/internal/projects/walk.go:47-53 | reclaimable directories are pairwise not nested |
| `ProjectDelete.RemovesExactly` | webmanager/backend/internal/projects/projects.go:321-330 | a removal takes exactly the files at and below its path |
| `ProjectDelete.TreeRescanned` | webmanager/backend/internal/projects/projects.go:289-340 | after deleting an entry a scan is the old one without it: lower by its size, the rest and the newest time unchanged |
| `ProjectDelete.WithoutOne` | webmanager/backend/internal/projects/projects.go:289-340 | exactly one entry goes, and the sum falls by its size |
| `ProjectScanner.ScanProject` | webmanager/backend/internal/projects/walk.go:11-45 | the project's numbers from one walk, and whether it is stale |
| `ProjectScanner.StaleIff` | webmanager/backend/internal/projects/walk.go:11-32 | stale exactly if neither the project's directory nor any file that counts is as new as the cutoff |
| `ProjectScanner.DiscoverProjects` | webmanager/backend/internal/projects/projects.go:166-181 | the directories directly in each root, in order |
| `ProjectScanner.DiscoveredIff` | webmanager/backend/internal/projects/projects.go:166-181 | found are exactly the directories directly in one of the roots |
| `ProjectScanner.ScannedAllIff` | webmanager/backend/internal/projects/projects.go:183-240 | the scan of everything found has exactly the directories directly in the roots, each as it is on the disk now |
| `ProjectScanner.Scanner.RunScan` | webmanager/backend/internal/projects/projects.go:183-240 | afterwards the cache has each discovered project as scanned now, and nothing else, sorted by path |
| `ProjectScanner.Scanner.FindProject` | webmanager/backend/internal/projects/projects.go:294-306 | the first cached project with the path |
| `ProjectScanner.Scanner.RescanAndStore` | webmanager/backend/internal/projects/projects.go:383-417 | that entry replaced, or dropped if the directory is gone; nothing else changes |
| `ProjectScanner.Scanner.DeleteReclaimable` | webmanager/backend/internal/projects/projects.go:276-340 | only a path that the cached project lists is removed, everything else refused without effect, then the project is rescanned |
| `ProjectScanner.ScannedBelow` | webmanager/backend/internal/projects/projects.go:284-288 | a listed path is always below its project, so the project itself is never removed |
| `ProjectScanner.DeleteLowersBySize` | webmanager/backend/internal/projects/projects.go:276-340 | on an up-to-date project a delete lowers both sizes by exactly the entry's, takes exactly that entry off the list, and leaves the rest of the disk alone |

## Left out

- DiskOps.Disk.CopyItem: copying "/" into "/" is excluded, as a method that ends cannot have it; `RootCopyNeverEnds` says what happens there.
- DiskOps.Disk.CopyResolved: the same exclusion. What is merged where, when a copy with overwrite lands in its own source, depends on the order of the entries; there only the recursion itself and the frame are stated, and `CopyMissesSource` shows what can come of it.
- CopyRuns.NestedCopyNeverEnds: a file system has limits on path length and space, not modelled here, and the recursion of the source stops with ENAMETOOLONG or ENOSPC when it meets them.
- DiskOps.RootCopyNeverEnds: the same limits.
- DiskOps.Disk.CopyPath: plain modes and whole-file contents only; special files, owners, timestamps and failing writes are not modelled, and running out of temporary names is its own error where the source reports ErrExists.
- PathResolve.ResolveForAccess: permission errors are not modelled, and the file system does not change between resolution and use (the source says it does not address that either).
- LogQuery.ReadEntries: nothing is claimed of a day-file that holds entries of another day; `sort.Slice` may order equal timestamps in any way.
- LogLines.EachLine: the callback's calls are collected in a sequence instead of being made one by one.
- LogPurge.LogFile.PurgeApp: an append is one event between two steps of the purge; `PurgeDate` and the loop over the files are not modelled.
- GateKeyLocks.RunKeepsInv: checking a fingerprint assertion itself is an outcome from outside; that no client address begins with "webauthn " is a condition of a password step; a gate without a password, which lets everything through, is not a state of this machine.
- GateSessions.RunInv: the token's wire format, base64 and the HMAC are abstracted to "a presented token was minted"; the clock does not go backwards.
- GateLockout.Attempts.RecordFailure: the failure count is unbounded.
- DetachReads.Reads: the relay loop around the matcher (terminal, WebSocket) is not modelled.
- SettingsMask.MaskSettings: decoding is a parameter; a value that is not masked is printed by a parameter; invalid UTF-8 in keys is not modelled.
- SettingsMask.SavedHasTheSameMembers: that the decoder reads a printed object back is a premise, about the one document printed.
- SshHostKeys.AddSSHHost: generating the key and cleaning it up; `made` is the public key if it could be. keysDir is an absolute path.
- SshHostKeys.AddThenDelete: a keysDir with a line break in its path is excluded; `KeyPathListedIff` says that its key path is not read back.
- KnownHosts.ListKnownHosts: decoding a key (`ssh.ParseAuthorizedKey`) is a parameter; Unicode white space is modelled on characters, not on bytes.
- ProjectTree.ScanDir: sizes are unbounded where the source has int64.
- ProjectScanner.Scanner.DeleteReclaimable: a removal that fails half way; paths whose intermediate directories have become symlinks since the scan; a full scan running at the same time.
- ProjectScanner.ScanProject: tech stack and formatted times.
- ProjectScanner.Scanner.RunScan: the workers are one loop, as the sort makes their order irrelevant; `place` stands for the order of path texts; a root that is a symlink is not followed.
- Bulk loops of Move, Copy and Delete, rename within a directory, upload and download: each item is one of the operations above.
- File locks around the config files, atomic replacement and crash durability: a write replaces the content.
- `internal/termsession`, `webauthnunlock`, `webdavshare`, `sshkeys`, `terminalsettings` and `envmigrate` are not part of this model; nor are the HTTP handlers, the frontend and the editor extension.
- Small preference files, the resource sampler, the history ring buffer and the heartbeat store: their laws would be easy members.
