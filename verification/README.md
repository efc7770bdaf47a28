# Multica client protocols and algorithms, verified

This project models the parts of the Multica clients whose comments promise something exact,
and proves what they promise, or exactly when they keep the promise.  Every `.dfy` file is one
module; `dafny verify dfyconfig.toml` checks them all.

**The mobile credential protocol** (`Credentials`, `CredentialSafety`, `CredentialMemory`,
`CredentialLiveness`, `CredentialClient`, `RenewalCadence`).  Logout, the 401 teardown, sign-in and a background renewal race over one
asynchronous Keychain slot, one token in memory, a synchronous epoch and a FIFO queue of writes.
The state machine takes one step per `await`; a conditional commit takes three, and any of its
Keychain calls may fail.  `CredentialClient.Client` is the module state changed in place; each of
its methods is proved to be one step of the schedule it remembers.  `CredentialSafety` proves, over
every schedule and with any Keychain call failing, exactly when the drained Keychain holds what the
latest teardown or sign-in asked for, that a renewal never changes the session, stored or in memory,
that the commit is a compare-and-set, and exactly when memory and storage agree at
rest; `CredentialLiveness`, that an undisturbed renewal takes effect and no attempt is left behind.

**The issue timeline** (`Timeline`, `TimelineThread`, `TimelineCounts`, `TimelineOrder`,
`TimelineCoalesce`, `TimelinePipeline`, with the generic `Runs` and `Sequences`).  Threading is specified as the unique breadth-first
bundle of each top-level entry; counts, and the order inside a bubble, are theorems about that
specification.  Coalescing is specified as the unique cut into maximal mergeable runs.

**The run transcript** (`RunTranscript`, `TranscriptPairing`, with the generic `StableSort`).
Items and entries are objects, extended in place and through the aliases in the pending map, and
are proved against specifications of runs and of call/result pairing.

**Inline references** (`InlineRefs`, `InlineRefCache`, `ViewedIssues`, with the generic `Recency`).
The explicit-stack walk, the forward-only code pointer, and two capped recency lists.

**Text machines** (`JsonRepair`, `Mentions`, `SearchExcerpt`, with `Characters` and
`Numbers`).  The repair of
almost-JSON against a tokenizer for section 7 of RFC 8259, the mention serializer, and the window
arithmetic of search excerpts.

**Smaller machines** (`InboxDedup`, `ExceptionFuse`, `PluginBridge`).

## What the proofs found

- The drained Keychain holds the session of the latest teardown or sign-in exactly when the write
  of that one landed, whatever else failed (the one other case: a teardown's delete failed and
  there was nothing to delete).  A sign-in whose write fails leaves the earlier session stored.
- A failed Keychain delete can leave memory and storage apart: a logout overtakes a commit between
  its check and its write, the renewed token lands unpublished, then the delete fails.  At rest the
  two agree exactly unless a publication was refused while its token was stored and every write
  since has failed.
- Entries whose chain of parents runs in a circle are shown in no row; the counts agree exactly
  when there are none.
- The threading comment promises replies in chronological order; the code is breadth-first.  The
  two agree exactly when later replies answer later comments.
- Coalescing a second time changes nothing exactly when no two neighbouring runs of the first pass
  end in mergeable entries, as is so on chronological input.  Out of order it can merge again, and
  then forgets a run's count.
- A picked mention name that contains white space is never linked: the whole text falls back.
  Every run is linked to the marker it was picked with exactly when the marker list is in the order
  of the text; it stays so exactly as long as no mention is picked to the left of one of another
  marker.  Picked right to left, two mentions of the same name swap identities without falling back.
- "Different fingerprints never affect each other" fails one way only: others never make the fuse
  drop more of a fingerprint.  Whatever fails, is cleared or garbled, a fingerprint is counted as it
  would be alone exactly as long as no fully working report of it, with no count stored, meets a
  store that holds fifty, and until then it keeps what it would keep alone.  When nothing fails that
  means: it keeps what it would keep alone exactly when it is one of the first fifty of its session
  or is reported at most three times.  After a single lost write even one of the first fifty can
  lose its place.

## Assumptions

- An epoch bump and the write queued behind it run in one turn.  Suspended functions continue in
  the order their writes landed.  A sign-in whose write has landed publishes its token before a
  Keychain read result is delivered (a microtask before a native callback).  `initialize` has
  restored the token before other session events; its 401 branch is the same event as a logout.
  Keychain operations succeed or fail as a whole, and the server never hands out a token twice.
- `renewSessionNow` asks the server only when a check is due (`maybeRenewSession`), the clock does
  not run backwards, and the cadence is a whole number of seconds.
- Comment ids are unique, and timestamps parse.  The Markdown parser records code in document
  order, and matches of the file-card pattern come in increasing order.
- `redactSecrets`, `normalizeUri`, the label unescape, `isMentionBoundaryAfter`, the Markdown parse
  behind the cache, and lower-casing are parameters; lower-casing works character by character and
  keeps white space.
- Two tasks can share a pairing key only when the id of one continues that of the other after a colon
  (`TranscriptPairing.TasksShareAKeyIff`).  The run screen accepts only UUIDs as task ids
  (apps/mobile/lib/run-transcript.ts:22-24).
- Display names contain no U+2063, and a suggestion is picked with the cursor in typed text.
- Fingerprints are given (no hash collisions), and nobody writes other well-formed counts under
  the fuse's storage key.
- The plugin bridge has its port, and the host's timers have fresh handles.

## Model

| member | source | states |
|---|---|---|
| CredentialSafety.DrainedKeychainBelongsToLatestOwner | apps/mobile/data/secure-storage.ts:26-71 | after every schedule, with any operation failing, the drained Keychain belongs to the latest epoch-moving operation (empty after a teardown, after a sign-in its token or a renewal of it) if and only if the write of that operation landed, or it was a teardown and nothing was stored |
| CredentialSafety.KeychainBelongsToWhatLanded | apps/mobile/data/secure-storage.ts:7-18 | at every moment the stored session is that of the latest unconditional write that landed |
| CredentialSafety.FailedSignInKeepsTheOldToken | apps/mobile/data/auth-store.ts:69-79 | a schedule whose one write fails leaves the session from before the sign-in stored |
| CredentialSafety.RenewalNeverChangesTheSession | apps/mobile/data/secure-storage.ts:7-18 | whatever fails, only an unconditional write changes whose token is stored, and only a sign-in's own write fills an empty Keychain |
| CredentialSafety.CommitIsCompareAndSet | apps/mobile/data/secure-storage.ts:60-71 | a commit's step either changes nothing stored or replaces exactly the previous token by a renewal of the same session; with a stale epoch at its first check it leaves storage alone |
| CredentialMemory.RenewalKeepsTheSessionInMemory | apps/mobile/data/session-renewal.ts:125-129 | a renewal that goes on after its commit, publishing or not, never changes whose token is in memory |
| CredentialMemory.MemoryBelongsToWhatWasPublished | apps/mobile/data/auth-store.ts:69-89 | at every moment the session in memory is that of the latest sign-in or teardown that has gone on after its write |
| CredentialLiveness.RenewalTakesEffect | apps/mobile/data/session-renewal.ts:71-146 | from every reachable state at rest with a token stored, an undisturbed attempt ends with a fresh token of the same session stored and in memory, the epoch unchanged |
| CredentialLiveness.RequestIsSentIff | apps/mobile/data/session-renewal.ts:74-94 | whatever happens during its read, an attempt sends a request if and only if the read gave a token and no sign-in or teardown began since the attempt did |
| CredentialLiveness.ReadSamplesTheKeychain | apps/mobile/data/session-renewal.ts:88-91 | the token it starts from is the one stored when it was read |
| CredentialLiveness.FailureEndsTheAttempt | apps/mobile/data/session-renewal.ts:112-142 | a failed read, a failed request and an answer without a new token end the attempt and change nothing else |
| CredentialLiveness.NoCommitIsLeftBehind | apps/mobile/data/session-renewal.ts:140-142 | at rest no attempt waits for its commit |
| CredentialLiveness.PublishedIff | apps/mobile/data/session-renewal.ts:125-129 | a landed renewal enters memory if and only if the epoch has not moved |
| CredentialSafety.OvertakenCommitIsOverwritten | apps/mobile/data/secure-storage.ts:48-59 | a commit past its comparison still faces the value it compared, and if the epoch moved meanwhile an unconditional write is queued behind it |
| CredentialSafety.QueueAlwaysDrains | apps/mobile/data/secure-storage.ts:26-34 | whatever fails, the queue drains within a bounded number of turns |
| CredentialSafety.QuiescentMemoryMatchesStorage | apps/mobile/data/session-renewal.ts:119-129 | with nothing pending, memory and storage hold the same session, and the same token if and only if the schedule has no refused publication of a stored renewal after which every write failed; always the same when the latest teardown's or sign-in's write landed |
| CredentialSafety.FailedDeleteOrphansARenewal | apps/mobile/data/auth-store.ts:81-89 | a schedule with one failed delete after which memory and storage differ at rest |
| CredentialSafety.HistoryIsTheSchedule | apps/mobile/data/session-epoch.ts:22-42 | epoch, owner, landed session, delivery and orphaning are each read off the schedule |
| CredentialSafety.StepKeepsInv | apps/mobile/data/session-renewal.ts:71-152 | every step of every activity keeps the protocol invariant (order of tokens, single flight, commit in progress, lineage, memory follows storage) |
| CredentialClient.AtAnyTime | apps/mobile/data/secure-storage.ts:1-19 | after any calls of the object's methods: whose session the Keychain holds and whose memory holds |
| CredentialClient.AtRest | apps/mobile/data/secure-storage.ts:1-19 | after any calls of the object's methods, at rest: when memory and the Keychain agree, and that both follow the latest teardown or sign-in whose write landed |
| CredentialClient.Client.Logout | apps/mobile/data/auth-store.ts:81-89 | logout and the 401 branch: bump and queued delete are the teardown step, added to the object's schedule |
| CredentialClient.Client.VerifyCode | apps/mobile/data/auth-store.ts:69-79 | sign-in after the server's answer is the sign-in step |
| CredentialClient.Client.RenewSessionNow | apps/mobile/data/session-renewal.ts:71-86 | starts an attempt only when none is in flight, with the epoch captured first |
| CredentialClient.Client.ReadSettles | apps/mobile/data/session-renewal.ts:91-94 | a missing token or a moved epoch ends the attempt; otherwise the request carries the token in memory |
| CredentialClient.Client.RefreshSettles | apps/mobile/data/session-renewal.ts:112-122 | an answered renewal queues its conditional commit |
| CredentialClient.Client.CommitTurn | apps/mobile/data/secure-storage.ts:64-70 | check epoch, read and compare, write: one await a turn |
| CredentialClient.Client.WriterTurn | apps/mobile/data/secure-storage.ts:30-46 | the head of the queue takes its step and keeps the invariant |
| CredentialClient.Client.Continue | apps/mobile/data/session-renewal.ts:123-142 | a continuation publishes, or refuses to when the epoch has moved |
| RenewalCadence.RequestsAreSpaced | apps/mobile/data/session-renewal.ts:52-65 | over every run a request goes out at least a second after any earlier answer or failure, a failed Keychain read and a failed commit included |
| RenewalCadence.FailuresBackOff | apps/mobile/data/session-renewal.ts:55-61 | after the n-th failure in a row, of whatever kind, no request goes out before the n-th backoff step |
| RenewalCadence.CounterIsTheRow | apps/mobile/data/session-renewal.ts:53-60 | over every run the counter is the number of failures since the last answer with a cadence |
| RenewalCadence.BackoffIs | apps/mobile/data/session-renewal.ts:38-61 | after the n-th failure in a row the deadline is 1, 2, 4, 8, 16 and from then on 30 seconds away |
| RenewalCadence.DeadlineIs | apps/mobile/data/session-renewal.ts:102-109 | a positive cadence puts it that many seconds away, five at least; nothing else moves it |
| RenewalCadence.AttemptsStartAndEnd | apps/mobile/data/session-renewal.ts:140-152 | a trigger starts an attempt if and only if it is due and none is under way, and every ending leaves none |
| RenewalCadence.OneRequestInFlight | apps/mobile/data/session-renewal.ts:62-86 | between two requests the first has settled |
| RenewalCadence.FailureKeepsTheDeadlineNear | apps/mobile/data/session-renewal.ts:26-38 | a failure puts the next check at least a second ahead, and until an answer sets a new cadence it is never more than thirty seconds away, whatever cadence the server had chosen before |
| RenewalCadence.ObjectIsSpaced | apps/mobile/data/session-renewal.ts:52-86 | after any calls of the object's methods its requests were a second apart and never two in flight |
| RenewalCadence.SessionRenewal.RequestSettles | apps/mobile/data/session-renewal.ts:94-112 | an answer resets the failures and moves the deadline by the cadence, an unusable one backs off |
| RenewalCadence.SessionRenewal.ScheduleRetryAfterFailure | apps/mobile/data/session-renewal.ts:55-61 | the backoff step and its cap |
| RenewalCadence.SessionRenewal.MaybeRenewSession | apps/mobile/data/session-renewal.ts:148-152 | nothing before the deadline, and one attempt at a time |
| TimelineThread.BuildTimelineRows | apps/mobile/lib/timeline-thread.ts:37-87 | one row for each activity, top-level comment and orphan, in order, each with the breadth-first bundle below it |
| TimelineThread.CollectDescendants | apps/mobile/lib/timeline-thread.ts:63-80 | terminates, on cyclic input too, with distinct replies, each behind the comment it answers, which are exactly the kids of the row's comments in turn |
| TimelineThread.Partition | apps/mobile/lib/timeline-thread.ts:45-61 | the heads in order, and every loaded reply under its parent |
| TimelineThread.RowsFollowTheTimeline | apps/mobile/lib/timeline-thread.ts:48-61 | the rows stand, in timeline order, for exactly the activities, the comments without a parent and those whose parent is not loaded |
| TimelineThread.RepliesAre | apps/mobile/lib/timeline-thread.ts:63-86 | a row's replies are exactly the comments that answer its entry or another of its replies; an activity has none |
| TimelineCounts.BundleIsUnique | apps/mobile/lib/timeline-thread.ts:30-35 | the bundle specification determines the replies and their order |
| TimelineCounts.RowsShowExactlyTheRooted | apps/mobile/lib/timeline-thread.ts:13-26 | an entry whose chain of parents ends is shown as often as it was given, one below a cycle never |
| TimelineCounts.CountsAgreeIffAllRooted | apps/mobile/lib/timeline-thread.ts:24-26 | the rows show the same multiset of entries if and only if every chain of parents ends |
| TimelineCounts.OlderParentsAreRooted | apps/mobile/lib/timeline-thread.ts:13-26 | parents older than their replies make every chain end |
| TimelineCounts.MutualRepliesVanish | apps/mobile/lib/timeline-thread.ts:48-61 | two comments that answer each other give no row |
| TimelineOrder.ChronologicalIffAnsweredInOrder | apps/mobile/lib/timeline-thread.ts:19-22 | a bubble lists its replies in timeline order if and only if later replies answer later comments |
| TimelineOrder.NestedReplyIsShownLate | apps/mobile/lib/timeline-thread.ts:64-67 | a four-comment thread whose bubble is out of timeline order |
| TimelinePipeline.Rows | apps/mobile/components/issue/timeline-list.tsx:92-99 | the screen's rows thread the coalesced timeline |
| TimelinePipeline.PipelineCountsAgreeIff | apps/mobile/components/issue/timeline-list.tsx:92-99 | on uncounted entries with unique comment ids coalescing keeps every comment, and the counts shown sum to the number of entries if and only if every chain of parents ends |
| TimelineCoalesce.CoalesceTimeline | apps/mobile/lib/timeline-coalesce.ts:29-58 | the output stands for the maximal mergeable runs, each by its newest entry and count |
| TimelineCoalesce.NeighboursMergeIff | apps/mobile/lib/timeline-coalesce.ts:25-47 | neighbours are merged if and only if both are activities of one action, actor type and actor, not the squad leader's evaluation, that end a task or are at most 120 000 ms apart |
| TimelineCoalesce.RunIsShownBy | apps/mobile/lib/timeline-coalesce.ts:48-55 | a run is shown by its last entry, counting the first entry's count and one for each later entry |
| TimelineCoalesce.CountsAddUp | apps/mobile/lib/timeline-coalesce.ts:1-7 | on uncounted input the counts sum to the input's length |
| TimelineCoalesce.NoMergeableNeighbours | apps/mobile/lib/timeline-coalesce.ts:8-15 | chronological input leaves no neighbours that could still merge |
| TimelineCoalesce.CoalescingTwice | apps/mobile/lib/timeline-coalesce.ts:8-21 | coalescing a coalesced chronological timeline changes nothing |
| TimelineCoalesce.SecondPassChangesNothingIff | apps/mobile/lib/timeline-coalesce.ts:8-21 | a second pass changes nothing if and only if no two neighbouring runs of the first end in mergeable entries |
| TimelineCoalesce.OutOfOrderCoalescesTwice | apps/mobile/lib/timeline-coalesce.ts:42-51 | three entries out of order which the second pass makes one, with the count of two |
| Runs.RunsAreUnique | apps/mobile/lib/timeline-coalesce.ts:33-56 | there is only one cut into maximal runs |
| StableSort.SortIsStable | apps/mobile/lib/run-transcript.ts:41-41 | the sort is a sorted permutation that keeps ties in order |
| RunTranscript.BuildRunTranscript | apps/mobile/lib/run-transcript.ts:37-60 | the items are the maximal same-kind text and thinking runs of the sequence-sorted messages, joined, then redacted as a whole; the message objects, which the sorted list shares, are not mutated |
| RunTranscript.TakenBySeqNo | apps/mobile/lib/run-transcript.ts:41-41 | messages are taken by ascending sequence number, equal ones in the order given |
| RunTranscript.NeighboursJoinIff | apps/mobile/lib/run-transcript.ts:43-47 | neighbours become one item if and only if both are text or both are thinking |
| RunTranscript.ItemIs | apps/mobile/lib/run-transcript.ts:48-59 | an item's fields: its first message's, the latest time of its run, and its output and its run's whole text redacted unless empty |
| RunTranscript.SortBySeq | apps/mobile/lib/run-transcript.ts:41-41 | the sorted list holds the messages' own objects, stably ordered by sequence number |
| RunTranscript.Absorb | apps/mobile/lib/run-transcript.ts:41-53 | a fragment extends the last item in place; any other message becomes an item by a fresh copy, so no message object enters the list |
| TranscriptPairing.BuildRunTranscriptEntries | apps/mobile/lib/run-transcript.ts:67-91 | from the messages: the entries pair the joined and redacted items of the sorted messages |
| TranscriptPairing.PairItems | apps/mobile/lib/run-transcript.ts:71-90 | one entry for every item but the paired results, in order; a call's entry holds a result exactly when one is paired with it |
| TranscriptPairing.CallHoldsItsAnswer | apps/mobile/lib/run-transcript.ts:71-85 | for task ids without colons: a call's entry holds a result if and only if that is the first later result of the same task and non-empty call id with no such call between |
| TranscriptPairing.OthersStandAlone | apps/mobile/lib/run-transcript.ts:72-88 | a result that answers no call, as any without a call id, has its own entry, and so has every other message |
| TranscriptPairing.NoIdNeverAnswers | apps/mobile/lib/run-transcript.ts:72-73 | an absent or empty call id never pairs |
| TranscriptPairing.EntriesFollowTheItems | apps/mobile/lib/run-transcript.ts:71-90 | the entries stand in the order of the items that are not answers |
| TranscriptPairing.PairedIffAnswers | apps/mobile/lib/run-transcript.ts:72-79 | pairing by keys is pairing by task and call id |
| TranscriptPairing.PairedIsOpenCall | apps/mobile/lib/run-transcript.ts:66-85 | a result's pending call is the latest earlier call of its key with no result of that key between |
| TranscriptPairing.Fill | apps/mobile/lib/run-transcript.ts:79-82 | writing through the pending alias fills the empty result of the entry already in the list |
| TranscriptPairing.EveryItemFillsOneSlot | apps/mobile/lib/run-transcript.ts:71-90 | the entries hold exactly the items, each once |
| TranscriptPairing.KeyIdentifiesTheCall | apps/mobile/lib/run-transcript.ts:72-73 | without colons in task ids, equal keys mean the same task and call id |
| TranscriptPairing.TasksShareAKeyIff | apps/mobile/lib/run-transcript.ts:72-73 | two task ids share a key for some call ids if and only if one continues the other after a colon |
| TranscriptPairing.ColonConfusesTasks | apps/mobile/lib/run-transcript.ts:73-73 | two such messages, of tasks `t` and `t:x` |
| InlineRefs.Walk | packages/core/attachments/image-sequence.ts:230-243 | the stack walk terminates and visits the tree in recursive preorder |
| InlineRefs.CollectDefinitions | packages/core/attachments/image-sequence.ts:245-252 | the map holds the first definition of each identifier |
| InlineRefs.FirstDefinitionIsFirst | packages/core/attachments/image-sequence.ts:245-252 | the definition used has no earlier one of its identifier |
| InlineRefs.CollectRefs | packages/core/attachments/image-sequence.ts:254-287 | image references and literal code ranges in preorder |
| InlineRefs.CollectCards | packages/core/attachments/image-sequence.ts:289-305 | the forward-only pointer keeps exactly the file cards that no code range overlaps |
| InlineRefs.PointerDecides | packages/core/attachments/image-sequence.ts:292-296 | one comparison with the first range ending behind the match decides the overlap |
| InlineRefs.ExtractInlineRefs | packages/core/attachments/image-sequence.ts:229-307 | references stably sorted by place |
| InlineRefs.ReferencesAre | packages/core/attachments/image-sequence.ts:245-307 | the references, by ascending place, are exactly those of image nodes, of references by their first definition and of `<img>` tags that have a destination, and of the file cards that reach into no code span or fenced block |
| InlineRefCache.Cache.ExtractInlineRefs | packages/core/attachments/image-sequence.ts:215-229 | after any history the answer is a fresh extraction, and the cache keys are the bodies used last |
| InlineRefCache.EvictFirst | packages/core/attachments/image-sequence.ts:308-311 | deleting the first key in insertion order drops the least recently used body |
| InlineRefCache.HoldsTheLatest | packages/core/attachments/image-sequence.ts:196-200 | a body is cached if and only if it is among the 500 distinct ones used last |
| InlineRefCache.CacheIs | packages/core/attachments/image-sequence.ts:196-200 | at most 500 bodies are cached; one used and not cached was used before all that are, and then the cache is full |
| Recency.CappedRecentIs | packages/core/attachments/image-sequence.ts:222-227 | a capped recency list holds distinct elements by last use, latest first, and lacks only what was used before all of it |
| Recency.PushCapped | apps/mobile/data/viewed-issues-store.ts:36-41 | pushing onto a capped list equals capping the longer history |
| ViewedIssues.PushedListIsTheLatestTen | apps/mobile/data/viewed-issues-store.ts:22-41 | after any pushes the list is the ten distinct issues viewed last, latest first |
| ViewedIssues.CappedListIsPrefix | apps/mobile/data/viewed-issues-store.ts:36-52 | with removals too it is a prefix, at most ten long, of the list without a capacity |
| ViewedIssues.HeldIffNeverFell | apps/mobile/data/viewed-issues-store.ts:36-52 | and it holds exactly the issues that, since they were last viewed, were among the first ten of that list at every moment |
| ViewedIssues.LatestTenAre | apps/mobile/data/viewed-issues-store.ts:22-41 | after pushes: at most ten, distinct, by last view, latest first; a missing one was viewed before all ten |
| ViewedIssues.UncappedIs | apps/mobile/data/viewed-issues-store.ts:36-52 | the list without a capacity holds what was viewed and not removed since, by last view |
| ViewedIssues.ViewedIssuesStore.Push | apps/mobile/data/viewed-issues-store.ts:36-41 | the store replays each workspace's own history |
| ViewedIssues.ViewedIssuesStore.Remove | apps/mobile/data/viewed-issues-store.ts:42-52 | so does a removal, and an unknown workspace stays unknown |
| JsonRepair.EscapeJsonStringControlCharacters | packages/core/agents/builder-protocol.ts:77-115 | the scanner computes the repair |
| JsonRepair.RepairPreservesMeaning | packages/core/agents/builder-protocol.ts:65-75 | the strict tokenizer reads in the repaired text exactly what the lenient one reads in the original, failures included |
| JsonRepair.RepairIsIdentityIffClean | packages/core/agents/builder-protocol.ts:65-115 | repair changes nothing if and only if no raw control character stands in a string; it is idempotent |
| JsonRepair.StrictTextUntouched | packages/core/agents/builder-protocol.ts:61-70 | strictly correct text is returned unchanged |
| Mentions.SerializeMentions | apps/mobile/lib/mention-serialize.ts:126-179 | the loop computes the pairing of marked runs with markers, with the fallback when it fails |
| Mentions.SentLinksAreRead | apps/mobile/lib/mention-serialize.ts:165-171 | a reader of brackets alone finds in what is sent, in order, one link for each marker and reads off it the marker's label, type word and id |
| Mentions.LinkTexts | apps/mobile/lib/mention-serialize.ts:165-169 | the text of each of the five kinds of link, and of a picked mention |
| Mentions.WalkKeepsTheText | apps/mobile/lib/mention-serialize.ts:112-125 | on the linked path every marker is used once, in order, and reading links back as `@name` gives the sentinel-free text |
| Mentions.SerializedReadsBack | apps/mobile/lib/mention-serialize.ts:16-19 | what is sent is the sentinel-free text, or that text with all markers linked |
| Mentions.LinkedIffNamed | apps/mobile/lib/mention-serialize.ts:112-125 | on every layout and marker list the linked path is taken if and only if each marker is named by the first word of the run it meets, and then run i gets marker i |
| Mentions.IdentitiesAreRightIff | apps/mobile/lib/mention-serialize.ts:16-19 | every run is linked to the marker it was picked with if and only if the list is the runs' own in text order and no name has white space |
| Mentions.IdentitiesAreWrongIff | apps/mobile/lib/mention-serialize.ts:16-19 | some run is linked to another marker if and only if the list names the runs and is not their own |
| Mentions.PickKeepsOwnMarkersIff | apps/mobile/lib/mention-serialize.ts:84-110 | a pick keeps the list in text order if and only if every mention to its right is of its own marker |
| Mentions.SessionKeepsOwnMarkersIff | apps/mobile/lib/mention-serialize.ts:84-110 | over every session of typing and picking anywhere the list stays right exactly as long as every pick is such |
| Mentions.LeftToRightMentionsLink | apps/mobile/lib/mention-serialize.ts:84-110 | over every left-to-right session each run is linked to the marker it was picked with, or none is because some name has white space |
| Mentions.PickingRightToLeftSwapsIdentities | apps/mobile/lib/mention-serialize.ts:84-125 | two same-named mentions picked right to left are linked to each other's ids |
| Mentions.TokenAtCursor | apps/mobile/lib/mention-serialize.ts:51-82 | finds the token at the cursor if and only if there is one |
| SearchExcerpt.Window | apps/docs/components/search-dialog.tsx:54-65 | both edges, each moved to the word boundary it should have; the window has 50 to 80 characters and holds the hit with 45 characters from it on, or all there are |
| SearchExcerpt.WindowHoldsTheHit | apps/docs/components/search-dialog.tsx:27-30 | any window with such edges lies in the text and leaves at most 20 characters of lead, unless it ends with the text |
| SearchExcerpt.EdgesAre | apps/docs/components/search-dialog.tsx:54-65 | the raw window of 80 from 20 before the hit, and each edge's move of at most 15 |
| SearchExcerpt.FlatTextIs | apps/docs/components/search-dialog.tsx:48-48 | the flat text has the same words, single blanks between them and none at the ends |
| SearchExcerpt.TermIs | apps/docs/components/search-dialog.tsx:51-51 | a term counts trimmed and in lower case, a blank one not at all |
| SearchExcerpt.HitIs | apps/docs/components/search-dialog.tsx:52-52 | the hit is the first occurrence of the first term that occurs, or the beginning |
| Characters.SpacesAre | apps/docs/components/search-dialog.tsx:48-56 | white space by code point |
| SearchExcerpt.Excerpt | apps/docs/components/search-dialog.tsx:46-67 | short text is returned whole, otherwise the trimmed window between ellipses |
| SearchExcerpt.MatchIsShown | apps/docs/components/search-dialog.tsx:46-67 | the first query term that occurs, up to 45 characters long, can be read in the excerpt |
| InboxDedup.DeduplicateInboxItems | apps/mobile/lib/inbox-display.ts:137-173 | the loops compute the deduplicated list |
| InboxDedup.OneNewestRowPerIssue | apps/mobile/lib/inbox-display.ts:128-135 | one row for each key with an unarchived row: the newest one, with the comment of the newest row that has one if it has none; rows come newest first |
| InboxDedup.RowIs | apps/mobile/lib/inbox-display.ts:137-168 | a row is the newest unarchived item of its issue in every field, except that if that one has no comment it shows the comment of the newest item that has one |
| InboxDedup.ListIs | apps/mobile/lib/inbox-display.ts:137-173 | one row for each issue with an unarchived item, newer rows first |
| InboxDedup.TiesFollowTheItems | apps/mobile/lib/inbox-display.ts:139-173 | rows of the same age stand in the order in which their issues are first given |
| InboxDedup.DeduplicatingTwice | apps/mobile/lib/inbox-display.ts:119-135 | deduplicating twice changes nothing |
| ExceptionFuse.SessionStorage.ShouldDropException | packages/core/analytics/exception-dedupe.ts:40-78 | the decision and the stored counts after it, with storage failing at any point; the object remembers its session, and drops only what it has kept three of |
| ExceptionFuse.DroppedOnlyAfterThreeKept | packages/core/analytics/exception-dedupe.ts:14-18 | whatever fails or is cleared, a report is dropped only after three with its fingerprint were kept |
| ExceptionFuse.FailuresOnlyKeep | packages/core/analytics/exception-dedupe.ts:14-18 | without storage, or when it cannot be read or written, nothing changes, and only a report whose count was read is dropped |
| ExceptionFuse.StoredCountsAreEarned | packages/core/analytics/exception-dedupe.ts:24-29 | at most fifty fingerprints are stored, each with a count no greater than the reports kept |
| ExceptionFuse.SteadyFuseKeepsThree | packages/core/analytics/exception-dedupe.ts:8-12 | without failures each of the first fifty fingerprints keeps exactly its first three reports, every other one all |
| ExceptionFuse.CountsAsAloneIff | packages/core/analytics/exception-dedupe.ts:8-22 | over every session, with anything failing, cleared or garbled, a fingerprint's stored count is at every moment what it would be alone if and only if no fully working report of it met a full store with no count of its own |
| ExceptionFuse.UnrefusedKeepsAsAlone | packages/core/analytics/exception-dedupe.ts:12-13 | and then it keeps exactly as many reports as alone |
| ExceptionFuse.OthersNeverDropMore | packages/core/analytics/exception-dedupe.ts:12-18 | in every session a fingerprint keeps at least what it would keep alone |
| ExceptionFuse.KeepsWhatItWouldAloneIff | packages/core/analytics/exception-dedupe.ts:12-13 | in a session without failures, a fingerprint keeps what it would keep alone if and only if it is one of the first fifty or is reported at most three times |
| ExceptionFuse.LostWriteLosesThePlace | packages/core/analytics/exception-dedupe.ts:67-74 | with one failed write, one of the first fifty keeps five reports where alone it would keep four |
| ExceptionFuse.FiftyFirstIsNeverDropped | packages/core/analytics/exception-dedupe.ts:26-29 | after fifty others, all four reports of a fingerprint are kept |
| PluginBridge.EveryRequestSettlesOnce | packages/plugin-sdk/index.ts:118-167 | over every schedule the n-th request is posted under its own id, settles once, with the first answer to it or its timeout, and until then is pending with its timer armed |
| PluginBridge.BridgeSettlesOnce | packages/plugin-sdk/index.ts:118-167 | after any calls of the object's methods, the fate of its n-th request |
| PluginBridge.OnlyIssuedIdsSettle | packages/plugin-sdk/index.ts:118-131 | only issued ids are ever pending or settled |
| PluginBridge.StepKeepsInv | packages/plugin-sdk/index.ts:118-167 | pending and settled partition the issued ids, and timers are armed exactly for the pending ones |
| PluginBridge.NamesAreDistinct | packages/plugin-sdk/index.ts:157-157 | request ids never repeat |
| PluginBridge.NameIs | packages/plugin-sdk/index.ts:157-157 | the id of the n-th request is `r` and n in decimal |
| PluginBridge.OutcomesAre | packages/plugin-sdk/index.ts:125-163 | an answer settles a waiting request with its data, a refusal with its status and error, the timeout with its call; each takes request and timer away |
| PluginBridge.Bridge.Request | packages/plugin-sdk/index.ts:155-167 | issuing is one step of the schedule |
| PluginBridge.Bridge.OnPortMessage | packages/plugin-sdk/index.ts:118-131 | so is an answer; one that matches nothing changes nothing |
| PluginBridge.Bridge.OnTimeout | packages/plugin-sdk/index.ts:160-163 | so is a timeout |

## Left out

- Mentions.SessionKeepsOwnMarkersIff: a pick's cursor lies in typed text, not inside a marked run, and editing a marked run is not an action of a session; for any text at all, `WalkKeepsTheText` says what is sent.
- `Array.prototype.sort` is an insertion sort that builds a new list, not an in-place sort of the array object; being stable, both give the same order.
- TimelineThread and TimelineCoalesce: entries are values; the shared entry objects are not modelled, since neither function writes to them.
- Network, Keychain, browser, React, Zustand and query-cache plumbing: each call is a step with a nondeterministic answer.
- `initialize` racing other session events: it runs before them.
- The bridge before its port arrives, its notifications and its theme events: a request waits and nothing is ever posted.
- The regular expressions for HTML images and file cards, the Markdown parser and full JSON parsing: the model takes matches, trees and token streams.
- `collectAttachmentSequence`, `orderStandaloneAttachments` and attachment matching: a filter, a two-way split and lookups.
- `stripBuilderDraft`, `mergeBuilderDraft` and the builder envelope: pattern replacement and field copies.
- `compact` in the documentation search: a counter reset at each page.
- Draft edits (`draft.ts`) and deliverable versions (`deliverables.ts`): record updates, and grouping like the inbox's.
- Fingerprint construction and its hash: the fingerprint is given.
- Response schemas, URL helpers, locale tables, components and configuration.
- The Go server and daemon are not part of this model.
