# Verified model of the client-side state machines

A Dafny model of the client code that keeps shared state straight while events, replies and
keystrokes arrive in any order: the pending-chat queue, the two message caches, the issue
timeline, the mention and agent-builder text protocols, the plugin bridge, the WebSocket client,
the inbox, the exception fuse, the image sequence and the recent-issues list.

`dafny verify dfyconfig.toml` checks the whole project.

## How the model is laid out

One module per source file, and further ones where runs or whole outputs are reasoned about.

| modules | component |
|---|---|
| `PendingQueue`, `PendingRuns`, `PendingConvergence`, `PendingVisibility` | pending chat queue |
| `MessageCache`, `CacheRuns` | flat and paged message caches |
| `TimelineEntry`, `TimelineCoalesce` | timeline entries; runs of like activities |
| `TimelineThread`, `TimelineBundles`, `TimelineOrder`, `TimelineSearch`, `TimelineCounts` | reply threads as rows |
| `TimelinePipeline` | the timeline as it is shown |
| `BuilderProtocol` | agent-builder drafts: JSON repair, draft parsing, hiding the block |
| `MentionSerialize`, `MentionSessions`, `MentionLinks` | mentions in plain text |
| `PluginBridge`, `BridgeRuns` | plugin surface and host page |
| `WsClient` | reconnecting WebSocket |
| `InboxDisplay` | one inbox row per issue |
| `ExceptionDedupe` | per-tab exception fuse |
| `CodeMask`, `FenceStandard`, `FenceBlocks`, `ImageSequence` | images a viewer pages through |
| `ViewedIssues` | recent issues per workspace |
| `Prelude`, `Sorting`, `Text` | options and sequences, `Array.prototype.sort`, string search and trimming |

Loops are methods proved equal to a specification function; objects with mutable fields are
classes whose methods are proved equal to a step function on their whole state; and the theorems
are about those functions, over every input and every run.

Platform behaviour enters as parameters or as events: `Date.parse` and `localeCompare` (assumed a
total order on ids), `Math.random()` (any number in [0, 1)), the JSON grammar, the recognizers of
the image extractor, and the callbacks a browser may deliver. `Array.prototype.sort` is a stable
sort; nothing is claimed about its order where the comparator is inconsistent. An `undefined`
pending state and the empty one are one value, since the code never tells them apart. Times are
milliseconds, or unreadable; comparing an unreadable one gives the inbox a NaN, which `sort` takes
for 0. Jitter is computed over the reals.

## Where the code and its own documentation differ

The model follows the code.

- `apps/mobile/lib/timeline-thread.ts` says that the emitted count is identical to the input. It is,
  for any list on which the searches end, exactly when every loaded parent is one comment and no id
  is reached from itself (`TimelineCounts.NothingLostOrRepeatedIff`); otherwise entries are lost
  (`TimelineCounts.CycleShowsNothing`) or shown twice (`TimelineCounts.RepeatedIdShowsTwice`). With
  repeated ids the search may also not end (`TimelineSearch.SearchEndsIff`). And it speaks of
  chronological order inside a bundle; the order is breadth-first, which is chronological exactly
  under `TimelineOrder.InInputOrderIff`.
- `packages/core/chat/pending.ts` keeps the rich observation "regardless of network arrival order".
  Of two different rich rows the later wins, of two sparse ones for a new task the earlier; exactly
  those two depend on the order (`PendingConvergence.ArrivalOrderConvergesIff`). And the comparator
  is cyclic when readable and unreadable times cross (`PendingConvergence.ArrangementExistsIff`).
- `packages/core/chat/message-cache.ts` calls both merge rules order-independent. That holds exactly
  for messages that do not contradict each other on a field the row lacks
  (`CacheRuns.ArrivalOrderConvergesIff`). Writing both caches does not keep them alike: a send that
  seeds one cache beside a history loaded into the other, as
  `packages/views/chat/components/chat-window.tsx` does, splits them, and so does an upsert without
  seeding into a paged cache without a page (`CacheRuns.AgreementKeptIff`).
- `packages/plugin-sdk/index.ts` allows 50 announcement attempts; the post-increment makes it 51
  (`BridgeRuns.AnnouncementsCounted`).
- `apps/mobile/lib/inbox-display.ts` preserves the newest anchor of a group, unless the newest item
  carries an empty one (`InboxDisplay.EmptyAnchorHides`). Newest first holds where dates are readable.
- `apps/mobile/lib/mention-serialize.ts` puts a word that does not match its marker down to hand
  edits; a picked name with whitespace never matches, and then nothing links
  (`MentionSessions.InsertionLinksIff`).
- `packages/core/attachments/image-sequence.ts` reads fences more freely than section 4.5 of
  CommonMark, version 0.31: text behind the marks does not keep a line from closing a block, nor a
  tab in front of them or a backtick behind backticks from opening one
  (`FenceStandard.OpensIff`, `FenceStandard.ClosesIff`, `FenceBlocks.BlocksAgreeIff`). And it ends
  lines at LF only, which a CR without an LF shows (`FenceBlocks.LinesAgreeIff`,
  `FenceBlocks.LoneCrHidesClosing`).

## Model

| member | source | states |
|---|---|---|
| `PendingQueue.UniqueQueue` | packages/core/chat/pending.ts:14-22 | The Map loop yields, in order of first occurrence of each id, the latest rich row of that id, or its first row when none is rich |
| `PendingRuns.NormalizeIds` | packages/core/chat/pending.ts:14-26 | Normalizing keeps exactly the chosen rows, so the ids of a queue become distinct and none is lost, whatever the comparator does |
| `PendingRuns.EnqueueKeeps` | packages/core/chat/pending.ts:37-87 | From a well-formed state, with or without a head and for either value of `queued`, an enqueue keeps the state well-formed and introduces at most its own id |
| `PendingRuns.HeadNeverDowngraded` | packages/core/chat/pending.ts:61-75 | Observing the head again keeps a status past "queued", the start time, the hold text and the queue, takes what the observation adds of message and content, and a second delivery changes nothing |
| `PendingRuns.SparseEchoOfHead` | packages/core/chat/pending.ts:61-75 | A sparse echo of a head known in full changes nothing |
| `PendingRuns.FollowUpBeforeHead` | packages/core/chat/pending.ts:42-60 | A follow-up that overtakes its head ends up behind it; without a head each queued arrival replaces the one before |
| `PendingRuns.FirstTaskBecomesHead` | packages/core/chat/pending.ts:37-60 | By default a first task becomes the head as it was sent; the rows that waited stay behind it, but for its own |
| `PendingRuns.IdleSendReplaces` | packages/core/chat/pending.ts:76-82 | A task known not to queue replaces another head and clears the queue |
| `PendingRuns.QueuedBeforeHead` | packages/core/chat/pending.ts:42-50 | A queued task without a head is the only row, and no head |
| `PendingRuns.CapabilitySurvives` | packages/core/chat/pending.ts:37-172 | `supports_queue` survives every event that does not empty the state |
| `PendingRuns.PromoteConserves` | packages/core/chat/pending.ts:120-135 | Promoting a queued row makes it the head with the new status, its message, content and start time, and the event's hold text while it waits for its directory; it keeps all ids but that of a head no longer "queued"; the order behind is the old one, with a waiting head put in front |
| `PendingRuns.PromoteHead` | packages/core/chat/pending.ts:110-118 | An event for the head sets its status and keeps everything else, but for the hold text: the event's, else the old one, exactly while it waits for its directory |
| `PendingRuns.UnknownTaskIgnored` | packages/core/chat/pending.ts:120-123 | An event for an unknown task, or without a head, changes nothing |
| `PendingRuns.PromoteKeeps` | packages/core/chat/pending.ts:103-136 | Any lifecycle event keeps the state well-formed, adds no id and never makes a head out of nothing |
| `PendingRuns.RemoveQueuedConserves` | packages/core/chat/pending.ts:138-148 | Removing a queued row drops exactly its id and nothing else |
| `PendingRuns.RemoveHeadConserves` | packages/core/chat/pending.ts:150-157 | Removing the head drops exactly its id; the queue front takes over as it is, and an empty queue leaves the empty state |
| `PendingRuns.HeadlessIsCleared` | packages/core/chat/pending.ts:142-164 | Without a head, removing and prioritizing give the empty state |
| `PendingRuns.PrioritizePermutes` | packages/core/chat/pending.ts:160-172 | Prioritizing permutes the queue: the chosen row first, the others in their old order |
| `PendingRuns.StepKeeps` | packages/core/chat/pending.ts:37-172 | Each event keeps well-formedness and adds only ids it enqueues; without an enqueue no head appears |
| `PendingRuns.RunKeeps` | packages/core/chat/pending.ts:37-172 | Over every run: queue ids distinct, head not queued, wait reason only on a waiting head, no id that was neither there nor enqueued, no synthesized head |
| `PendingConvergence.CompareTransitive` | packages/core/chat/pending.ts:5-12 | Three rows with a before b before c are compared consistently exactly when no unreadable-time row sits between two rows whose times and ids disagree |
| `PendingConvergence.SortedByTimeThenId` | packages/core/chat/pending.ts:5-12 | A strictly sorted queue is ordered by time where both times are readable and differ, and else by id |
| `PendingConvergence.ArrangementExistsIff` | packages/core/chat/pending.ts:5-26 | Rows with distinct ids have an order the comparator accepts if and only if no such crossing is among them |
| `PendingConvergence.MixedTimesHaveNoOrder` | packages/core/chat/pending.ts:5-12 | Concrete ids and any two readable times plus an unreadable one for which no order exists |
| `PendingConvergence.UniformTimesNeverCross` | packages/core/chat/pending.ts:8-11 | All times readable, or none, rules crossings out |
| `PendingConvergence.UniqueIsSurvivors` | packages/core/chat/pending.ts:14-22 | For settled observations the surviving rows are a function of what was queued and what arrived: the rich observation, else the row already queued, else the sparse observation |
| `PendingConvergence.ArrivalsKeepRows` | packages/core/chat/pending.ts:83-86 | After every arrival behind a head, settled or not, the queue holds the unique rows of everything seen, strictly sorted where an order exists, and the head is untouched |
| `PendingConvergence.ArrivalOrderConvergesIff` | packages/core/chat/pending.ts:5-26 | All deliveries of the same observations behind a head, permuted or repeated, leave the same state only if each id has at most one rich observation and, with none and no row queued, at most one sparse one; for a well-formed queue and surviving rows without a crossing of times and ids, also if; the queue is then one row per id, sorted by time and id |
| `PendingConvergence.PairCommutesIff` | packages/core/chat/pending.ts:14-22 | The smallest case: behind an empty queue two observations of one id commute exactly when they are equal or only one of them is rich |
| `PendingConvergence.ArrivalForgetsPriority` | packages/core/chat/pending.ts:83-86 | Any next arrival re-sorts a prioritized queue as if nothing had been prioritized |
| `PendingVisibility.HiddenIff` | packages/core/chat/pending.ts:174-185 | With distinct message ids a message is hidden exactly when its own row is queued under it |
| `PendingVisibility.TranscriptKeepsOrder` | packages/core/chat/pending.ts:174-185 | What is shown keeps its order and repetitions; an empty queue hides nothing |
| `PendingVisibility.LifecycleEventsHideNothing` | packages/core/chat/pending.ts:103-185 | Promote, remove and prioritize never hide a message that was visible |
| `PendingVisibility.RemovalsHideNothingIff` | packages/core/chat/pending.ts:138-185 | Every removal is safe for every message if and only if no message id is claimed by rows of two ids |
| `MessageCache.MergeChatMessage` | packages/core/chat/message-cache.ts:30-40 | The key loop computes the existing row plus the fields it lacked |
| `MessageCache.MergeIsLeftUnion` | packages/core/chat/message-cache.ts:29-40 | The merged row defines the left-biased union of defined fields, and is the existing row exactly when nothing was missing |
| `MessageCache.UpsertIntoPages` | packages/core/chat/message-cache.ts:61-86 | The loop with the `changed` flag merges on every page that has the row, or appends to page 0 |
| `MessageCache.QueryClient.UpsertChatMessageToCaches` | packages/core/chat/message-cache.ts:118-135 | Both caches of the session take their upsert, seeding only on request; other sessions are untouched |
| `CacheRuns.PagesRefineList` | packages/core/chat/message-cache.ts:55-86 | Upserting into pages, read oldest to newest, is upserting into the flat list |
| `CacheRuns.UpsertKeepsPaging` | packages/core/chat/message-cache.ts:61-86 | An upsert keeps the number of pages and the paging of each; a new message stands at the end of page 0, and the other pages are as they were |
| `CacheRuns.RunKeepsPaging` | packages/core/chat/message-cache.ts:61-109 | Over every run the paging is that of the start, or that of the one seeded page, which leads nowhere |
| `CacheRuns.AgreementKeptIff` | packages/core/chat/message-cache.ts:118-135 | Whichever of the two caches are there and agree, an upsert keeps them in agreement if and only if: both are missing; both are there and the paged one has a page or the upsert seeds; or one is there, and the upsert does not seed or that one shows nothing but the message |
| `CacheRuns.RunAgreesIff` | packages/core/chat/message-cache.ts:111-135 | From any two caches in agreement, missing ones included, they agree throughout a run if and only if that check holds at every upsert up to the first that seeds |
| `CacheRuns.SeedBesideHistory` | packages/core/chat/message-cache.ts:124-134 | A seeding send into a session of which only one cache was loaded leaves two caches that disagree |
| `CacheRuns.NoSeedNoCache` | packages/core/chat/message-cache.ts:95-109 | A run without seeding never creates a missing cache |
| `CacheRuns.RunIsFold` | packages/core/chat/message-cache.ts:118-127 | The flat cache after a run is the fold of its messages; a missing one is the fold of what arrives from the first seeding upsert on, and stays missing before |
| `CacheRuns.RowIsLeftUnion` | packages/core/chat/message-cache.ts:29-59 | After any run a row exists for exactly the ids observed, and is the left-biased union of its observations in arrival order |
| `CacheRuns.FirstContentStays` | packages/core/chat/message-cache.ts:18-40 | Two rows of one id with different content: whichever arrives first stays |
| `CacheRuns.ArrivalOrderConvergesIff` | packages/core/chat/message-cache.ts:18-59 | All deliveries of the same messages, permuted or repeated, leave the same row for an id if and only if no two of them disagree on a field that the row lacked |
| `CacheRuns.RedeliveryChangesNothing` | packages/core/chat/message-cache.ts:42-86 | Delivering an observation again changes neither cache |
| `TimelineThread.LoadedComments` | apps/mobile/lib/timeline-thread.ts:40-43 | The first scan computes the set of loaded comment ids |
| `TimelineThread.Partition` | apps/mobile/lib/timeline-thread.ts:45-61 | The second scan separates top-level entries, orphans included, and files replies under their parent in input order |
| `TimelineBundles.ReplyIff` | apps/mobile/lib/timeline-thread.ts:49-53 | An entry is filed as a reply exactly if it is a comment whose non-empty parent id is that of a loaded comment |
| `TimelineThread.CollectDescendants` | apps/mobile/lib/timeline-thread.ts:63-80 | Wherever the queue empties at all, the loop ends with what the search has gathered |
| `TimelineThread.CollectedIsBundle` | apps/mobile/lib/timeline-thread.ts:63-80 | For distinct comment ids that is a breadth-first bundle: the replies to root and bundle, in the order of the bundle, no id twice, parents first |
| `TimelineThread.DistinctIsThreaded` | apps/mobile/lib/timeline-thread.ts:37-87 | For distinct comment ids every search ends, and the rows are the top-level entries with their bundles |
| `TimelineThread.BuildTimelineRows` | apps/mobile/lib/timeline-thread.ts:37-87 | One row per top-level entry in input order, with what its search gathers if it is a comment: its bundle where ids are distinct |
| `TimelineOrder.RowsInInputOrder` | apps/mobile/lib/timeline-thread.ts:82-86 | Rows stand in the order of their entries in the input |
| `TimelineBundles.BundleIsSubtree` | apps/mobile/lib/timeline-thread.ts:63-80 | A bundle holds exactly the loaded replies whose chain of parents ends at the row entry |
| `TimelineBundles.SiblingsKeepInputOrder` | apps/mobile/lib/timeline-thread.ts:63-80 | Among the bundle, the direct replies to each comment are all of them, in input order |
| `TimelineBundles.ParentComesFirst` | apps/mobile/lib/timeline-thread.ts:63-80 | Every reply follows its parent |
| `TimelineBundles.DepthsNeverDecrease` | apps/mobile/lib/timeline-thread.ts:63-80 | Depths never decrease along a bundle |
| `TimelineOrder.InInputOrderIff` | apps/mobile/lib/timeline-thread.ts:20-32 | A bundle is in input order if and only if, of any two loaded replies under its row, the earlier has the same parent, or the row entry as parent, or an earlier parent |
| `TimelineOrder.LateReplyComesEarly` | apps/mobile/lib/timeline-thread.ts:63-80 | A late reply to the row entry stands in front of an earlier reply to a reply |
| `TimelineBundles.RowsConserveEntries` | apps/mobile/lib/timeline-thread.ts:24-26 | Row entries, replies and the entries that hang under nothing make up the input exactly once, and the lengths add up |
| `TimelineBundles.NothingLostIffAcyclic` | apps/mobile/lib/timeline-thread.ts:13-26 | The case of distinct comment ids: every entry is shown exactly once if and only if no loaded comment is its own ancestor |
| `TimelineSearch.SearchEndsIff` | apps/mobile/lib/timeline-thread.ts:68-78 | For any list, repeated ids included, the queue empties if and only if no id that reply links reach from the root is reached again from itself |
| `TimelineSearch.ReplyWithParentsId` | apps/mobile/lib/timeline-thread.ts:68-78 | A reply that repeats its parent's id keeps the queue from emptying |
| `TimelineSearch.RepeatedRootRepeatsReplies` | apps/mobile/lib/timeline-thread.ts:82-86 | One consequence of repeated ids: two top-level comments with one id show the same replies, each of them at least twice |
| `TimelineCounts.ShownCount` | apps/mobile/lib/timeline-thread.ts:63-86 | For any list on which the searches end: a reply is shown as often as its parent is taken off a queue, times its copies; anything else as often as it is loaded |
| `TimelineCounts.NothingLostOrRepeatedIff` | apps/mobile/lib/timeline-thread.ts:24-26 | For any such list, repeated ids included: every entry is shown exactly as often as it is loaded if and only if every loaded parent is one comment and no id is reached from itself |
| `TimelineCounts.RepeatedIdShowsTwice` | apps/mobile/lib/timeline-thread.ts:63-86 | Two replies of one id and a reply to it: the row shows that reply twice |
| `TimelineCounts.CycleShowsNothing` | apps/mobile/lib/timeline-thread.ts:45-61 | Two comments that reply to each other: no row |
| `TimelinePipeline.TimelineData` | apps/mobile/components/issue/timeline-list.tsx:162-165 | The timeline as shown: the rows of the coalesced entries |
| `TimelinePipeline.CoalescingKeepsSearches` | apps/mobile/components/issue/timeline-list.tsx:162-165 | Coalescing changes nothing about which searches end |
| `TimelinePipeline.TimelineCountsAgree` | apps/mobile/components/issue/timeline-list.tsx:162-165 | Rows and replies show the coalesced timeline exactly if and only if the input has no repeated parent and no id reached from itself; the counts shown then add up to the number of entries |
| `TimelineCoalesce.CoalesceTimeline` | apps/mobile/lib/timeline-coalesce.ts:29-58 | The loop that overwrites or pushes computes the fold |
| `TimelineCoalesce.CoalescedIsBlocks` | apps/mobile/lib/timeline-coalesce.ts:29-58 | The output is the input cut into maximal runs of mergeable neighbours, one entry a run: its last, counting the run |
| `TimelineCoalesce.PairMergesIff` | apps/mobile/lib/timeline-coalesce.ts:25-52 | Two entries become one, with a count, exactly if they are activities of one actor with one action, not a squad leader's evaluation, and the end of a task or at most two minutes apart |
| `TimelineCoalesce.RunIsMaximal` | apps/mobile/lib/timeline-coalesce.ts:8-19 | A run is contiguous, its neighbours merge, and the entry before it does not merge into it |
| `TimelineCoalesce.CountsAddUp` | apps/mobile/lib/timeline-coalesce.ts:48-51 | For input without counts, the output counts add up to the input length |
| `TimelineCoalesce.CommentsPassThrough` | apps/mobile/lib/timeline-coalesce.ts:19 | Comments pass through unchanged and in order |
| `TimelineCoalesce.NeighboursStayApart` | apps/mobile/lib/timeline-coalesce.ts:36-47 | With ascending times no two neighbouring outputs can still merge |
| `TimelineCoalesce.SecondPassChangesNothing` | apps/mobile/lib/timeline-coalesce.ts:29-58 | With ascending times coalescing is idempotent |
| `TimelineCoalesce.SecondPassIff` | apps/mobile/lib/timeline-coalesce.ts:29-58 | Whatever the order, a second pass changes nothing if and only if no two neighbouring runs of the input could merge by their last entries |
| `TimelineCoalesce.UnorderedInputMergesOn` | apps/mobile/lib/timeline-coalesce.ts:42-46 | Like activities at 0, 200000 and 100000 ms: a second pass merges on |
| `BuilderProtocol.EscapeJsonStringControlCharacters` | packages/core/agents/builder-protocol.ts:55-93 | The flag-driven loop computes the repair |
| `BuilderProtocol.RepairPreservesMeaning` | packages/core/agents/builder-protocol.ts:40-43 | Strictly reading the repaired text is reading the original while also accepting raw LF, CR and TAB inside strings, failures included |
| `BuilderProtocol.RepairKeepsValidText` | packages/core/agents/builder-protocol.ts:40-43 | Text whose strings are valid by section 7 of RFC 8259 is left alone |
| `BuilderProtocol.RepairIdempotent` | packages/core/agents/builder-protocol.ts:55-93 | Repairing twice is repairing once |
| `BuilderProtocol.RepairKeepsOutside` | packages/core/agents/builder-protocol.ts:60-65 | Nothing outside strings changes |
| `BuilderProtocol.DraftIsLenientParse` | packages/core/agents/builder-protocol.ts:31-53 | For every grammar the two attempts together are one parser that tolerates those raw characters |
| `BuilderProtocol.PayloadIsBetweenTags` | packages/core/agents/builder-protocol.ts:31-38 | The draft text is what stands between the first opening tag and the first closing tag behind it; an empty block is none |
| `BuilderProtocol.NoBlockNoDraft` | packages/core/agents/builder-protocol.ts:31-38 | Without both tags there is no draft |
| `BuilderProtocol.BlocksAreTakenOut` | packages/core/agents/builder-protocol.ts:109-114 | Each closed block goes, with the blanks in front of it, and what is around it stays |
| `Text.TrimIs` | packages/core/agents/builder-protocol.ts:109-114 | Trimming leaves out the whitespace at both ends, all of it, and nothing else |
| `BuilderProtocol.StrippedHasNoTag` | packages/core/agents/builder-protocol.ts:109-114 | The visible text never contains the opening tag, even where removing one block joins another |
| `BuilderProtocol.StripIdempotent` | packages/core/agents/builder-protocol.ts:109-114 | Stripping is idempotent |
| `BuilderProtocol.UnclosedShowsProse` | packages/core/agents/builder-protocol.ts:100-112 | Behind tag-free prose, an unclosed block shows exactly the trimmed prose |
| `BuilderProtocol.ClosedShowsProse` | packages/core/agents/builder-protocol.ts:109-114 | So does a closed block |
| `BuilderProtocol.StreamingShowsProse` | packages/core/agents/builder-protocol.ts:95-114 | What is visible at every streaming prefix: the trimmed prose so far, with as much of the opening tag as has arrived, and from its last character on the trimmed prose alone, until after the closing tag |
| `MentionSerialize.TokenAtCursor` | apps/mobile/lib/mention-serialize.ts:47-78 | Returns the one word-initial `@` with only word characters up to the cursor, with its query, or nothing if there is none |
| `MentionSessions.TypedTokenIff` | apps/mobile/lib/mention-serialize.ts:47-78 | While a query is typed behind an `@`, the token is that `@` exactly if it stands at the start of a word, and there is no other |
| `MentionSessions.PickWrites` | apps/mobile/lib/mention-serialize.ts:85-106 | Picking writes U+2063, `@`, the name and a space over the token, and puts the cursor behind them |
| `MentionSerialize.Walk` | apps/mobile/lib/mention-serialize.ts:129-168 | The loop ends in agreement exactly when the marked words are the marker names in order, with the linked text |
| `MentionSerialize.ReadWord` | apps/mobile/lib/mention-serialize.ts:150-151 | The word ends at the first whitespace |
| `MentionSerialize.SerializeMentions` | apps/mobile/lib/mention-serialize.ts:122-175 | Links every marked word in order if the words are the marker names, and otherwise returns the text without sentinels |
| `MentionLinks.LinkedTextReadsBack` | apps/mobile/lib/mention-serialize.ts:16-18 | Erasing the links of the linked output gives the text with every mention as its label, which is the sentinel-free text but for the `@` that issues drop; for names and ids without brackets in a text without link syntax of its own |
| `MentionLinks.LinksReadBack` | apps/mobile/lib/mention-serialize.ts:161-168 | Reading the links of the linked output gives the markers, all of them, in order: their kind, their id and their label; for names and ids without brackets in a text without link syntax of its own |
| `MentionLinks.TypedLinkIsErasedToo` | apps/mobile/lib/mention-serialize.ts:122-127 | Link syntax that was typed is kept, and erasing it takes it for a mention |
| `MentionSessions.SerializingLosesNothing` | apps/mobile/lib/mention-serialize.ts:112-120 | With sentinel-free names it gives exactly the sentinel-free text |
| `MentionSessions.StripTakesSentinels` | apps/mobile/lib/mention-serialize.ts:170-173 | Stripping takes out every sentinel and nothing else |
| `MentionSessions.ActKeepsStep` | apps/mobile/lib/mention-serialize.ts:85-106 | Typing or picking behind the latest mention keeps the marked words and the markers in step |
| `MentionSessions.SessionsLinkEverything` | apps/mobile/lib/mention-serialize.ts:80-175 | After every session of typing and picking left to right, everything picked is linked and nothing is lost |
| `MentionSessions.FreshSession` | apps/mobile/lib/mention-serialize.ts:122-127 | Every sentinel-free text starts such a session |
| `MentionSessions.MarkedWordIsNoToken` | apps/mobile/lib/mention-serialize.ts:44-70 | In every text: no cursor in a marked word, or behind the whitespace that ends it, has a token |
| `MentionSessions.FinishedMentionsAreNoTokens` | apps/mobile/lib/mention-serialize.ts:44-106 | After every session each pick still stands marked in the text, the marks ascending in the order of the picks, and no cursor in one or right behind it has a token |
| `MentionSessions.InsertionLinksIff` | apps/mobile/lib/mention-serialize.ts:85-168 | Picking for a token anywhere in a text whose mentions link: everything still links if and only if the name has no whitespace and every mention behind the token has that very name |
| `PluginBridge.Bridge.constructor` | packages/plugin-sdk/index.ts:105-113 | Starts listening and announces once |
| `PluginBridge.Bridge.OnBeat` | packages/plugin-sdk/index.ts:124-135 | One beat of the announcement |
| `PluginBridge.Bridge.OnWindowMessage` | packages/plugin-sdk/index.ts:137-167 | Binds the first acceptable port, applies the theme and flushes the queue in order |
| `PluginBridge.Bridge.OnPortMessage` | packages/plugin-sdk/index.ts:169-182 | A theme event, a response to a pending request, or nothing |
| `PluginBridge.Bridge.Send` | packages/plugin-sdk/index.ts:200-204 | Posts a notification, or queues it before the port is bound |
| `PluginBridge.Bridge.StartRequest` | packages/plugin-sdk/index.ts:206-207 | A request suspends on readiness |
| `PluginBridge.Bridge.ContinueRequest` | packages/plugin-sdk/index.ts:208-217 | A resumed request takes the next id, becomes pending and is posted |
| `PluginBridge.Bridge.OnTimeout` | packages/plugin-sdk/index.ts:211-214 | A timer that fires settles its request with 408 |
| `BridgeRuns.RunKeepsInvariant` | packages/plugin-sdk/index.ts:95-219 | Over every interleaving: issued ids are the disjoint union of pending and settled, each settled once; nothing is posted or issued before the port; at most 51 announcements, exactly 51 if no port came |
| `BridgeRuns.PortBoundOnce` | packages/plugin-sdk/index.ts:153-161 | A bound port is never replaced |
| `BridgeRuns.PortIsFirstOffer` | packages/plugin-sdk/index.ts:137-161 | Over every run the port is that of the first init message with a port, from the embedder and of version 1, and none exactly if there is none |
| `BridgeRuns.ThemeIsLatest` | packages/plugin-sdk/index.ts:164-190 | The theme is the latest that came with that message or over the port |
| `BridgeRuns.RequestIdInjective` | packages/plugin-sdk/index.ts:208 | Ids of different sequence numbers differ |
| `BridgeRuns.RequestIdReads` | packages/plugin-sdk/index.ts:208 | An id is the letter r and the number of the request in decimal |
| `BridgeRuns.RequestsNumberedInOrder` | packages/plugin-sdk/index.ts:206-217 | Requests leave numbered consecutively from 1 |
| `BridgeRuns.RequestsPostedAsCalled` | packages/plugin-sdk/index.ts:206-217 | Every request goes out under its id with the verb, path and body it was called with |
| `BridgeRuns.NotificationsSentOnce` | packages/plugin-sdk/index.ts:165-204 | All notifications of a run are queued in call order before the port, and sent exactly once in call order from then on |
| `BridgeRuns.EarlyNoticesGoFirst` | packages/plugin-sdk/index.ts:161-166 | What was notified before the port goes out ahead of all other traffic |
| `BridgeRuns.CallsConserved` | packages/plugin-sdk/index.ts:206-217 | Every call made is still suspended or was issued exactly once, as it was made |
| `BridgeRuns.ResumeTakesOne` | packages/plugin-sdk/index.ts:206-217 | A caller that continues leaves the other suspended callers in their order, and its call goes out last |
| `BridgeRuns.CallsGoOutInOrder` | packages/plugin-sdk/index.ts:206-217 | When callers continue in the order they were suspended, requests go out in call order and the latest are still suspended |
| `BridgeRuns.RequestFates` | packages/plugin-sdk/index.ts:169-217 | Over every run, a request is pending exactly from its issue to its first answer or timeout, and settles with that outcome and no other |
| `BridgeRuns.SettlementsAreCaused` | packages/plugin-sdk/index.ts:175-214 | Nothing settles without an answer or timeout of its own |
| `BridgeRuns.LateAnswersIgnored` | packages/plugin-sdk/index.ts:176-177 | Answers and timeouts for anything else change nothing |
| `BridgeRuns.AnnouncementsCounted` | packages/plugin-sdk/index.ts:124-135 | The announcements of every run: one, and one for each beat without a port, up to 51; more than 50 exactly when 50 or more beats come without a port |
| `BridgeRuns.BeatsGoOnIff` | packages/plugin-sdk/index.ts:127-133 | A beat is followed by another exactly while no init was accepted and fewer than 50 went before it |
| `BridgeRuns.SilentHostIsCalledOnceMore` | packages/plugin-sdk/index.ts:128 | Fifty beats without a port make 51 announcements |
| `BridgeRuns.BoundStaysQuiet` | packages/plugin-sdk/index.ts:128 | From the binding on, no run announces again |
| `WsClient.WSClient.constructor` | packages/core/api/ws-client.ts:54-66 | A fresh client has no token and no link |
| `WsClient.WSClient.DoSetAuth` | packages/core/api/ws-client.ts:68-71 | Replaces the token at any time, and nothing else |
| `WsClient.WSClient.DoConnect` | packages/core/api/ws-client.ts:73-156 | Opens a socket and makes it the client's |
| `WsClient.WSClient.OnOpen` | packages/core/api/ws-client.ts:91-100 | With a token to send, waits for the acknowledgement; otherwise authenticated |
| `WsClient.WSClient.OnAuthenticated` | packages/core/api/ws-client.ts:182-196 | Resets the attempts and runs the callbacks of a recovered connection |
| `WsClient.WSClient.OnClose` | packages/core/api/ws-client.ts:148-150 | A closed socket schedules a reconnect |
| `WsClient.WSClient.ScheduleReconnect` | packages/core/api/ws-client.ts:163-180 | Counts the attempt and arms a timer with its delay |
| `WsClient.WSClient.OnTimer` | packages/core/api/ws-client.ts:179 | A fired timer reconnects |
| `WsClient.WSClient.DoDisconnect` | packages/core/api/ws-client.ts:198-215 | Drops timer, socket, history and callbacks |
| `WsClient.DelayBounds` | packages/core/api/ws-client.ts:163-173 | Every delay, jitter and rounding included, is at least 80% of its base and at most 120% of it and 30000 ms |
| `WsClient.BaseDoubles` | packages/core/api/ws-client.ts:164-167 | The base doubles from 1000 ms up to 30000 |
| `WsClient.DelayIsNearest` | packages/core/api/ws-client.ts:163-173 | The delay is the base moved by at most a fifth, capped at 30000, to the nearest millisecond |
| `WsClient.EveryDelayBounded` | packages/core/api/ws-client.ts:163-180 | Every reconnection of every run was scheduled within those bounds of its attempt |
| `WsClient.CloseSchedules` | packages/core/api/ws-client.ts:148-180 | Each close schedules one reconnection with the delay for the closes since the last authentication; nothing else schedules any |
| `WsClient.DisciplinedRunsKeepOneLink` | packages/core/api/ws-client.ts:73-215 | With one connect per epoch the link is the client's own socket or its own timer, never both |
| `WsClient.OneLinkIffDisciplined` | packages/core/api/ws-client.ts:73-215 | At every point of a run there is exactly one link inside an epoch and none outside, if and only if connect is called once per epoch |
| `WsClient.LinksTraded` | packages/core/api/ws-client.ts:73-215 | Over every run, connecting adds a link, a close or a firing timer trades one for another, and a disconnect closes exactly the client's own |
| `WsClient.AttemptCountsCloses` | packages/core/api/ws-client.ts:163-196 | The attempt counter is the number of closes since the last authentication |
| `WsClient.RecoversIffHistory` | packages/core/api/ws-client.ts:182-196 | Callbacks run on an authentication exactly when a close or authentication precedes it in the epoch |
| `WsClient.TokenIsLatest` | packages/core/api/ws-client.ts:68-71 | The token is the one set last |
| `WsClient.DisconnectForgets` | packages/core/api/ws-client.ts:198-215 | A disconnect leaves the client as it was made, but for its token |
| `WsClient.CallbacksAreRegistered` | packages/core/api/ws-client.ts:182-215 | The callbacks that run are those registered and neither taken back nor dropped by a disconnect |
| `InboxDisplay.GroupByIssue` | apps/mobile/lib/inbox-display.ts:73-80 | The Map loop files active items under issue or item id, keys in order of first appearance |
| `InboxDisplay.MergeGroup` | apps/mobile/lib/inbox-display.ts:82-103 | Sorting in place and searching for an anchor yields the first item of the sorted group with the first anchor; where dates are readable, a newest item with the anchor of the newest member that has one |
| `InboxDisplay.MergeGroups` | apps/mobile/lib/inbox-display.ts:81-103 | One row per group, in group order |
| `InboxDisplay.DeduplicateInboxItems` | apps/mobile/lib/inbox-display.ts:72-108 | The whole function computes the deduplicated list, readable dates or not |
| `InboxDisplay.OneRowPerKey` | apps/mobile/lib/inbox-display.ts:54-71 | Whatever the dates are: exactly one row per key of the non-archived items, a member of its group changed at most by taking the anchor of a member |
| `InboxDisplay.OneRowPerIssue` | apps/mobile/lib/inbox-display.ts:54-80 | On the items' own fields: no two rows are of one issue, every active item is of the issue of a row, and every row is an active item but for its anchor |
| `InboxDisplay.ItemsShareRowIff` | apps/mobile/lib/inbox-display.ts:73-80 | Two active items share a row exactly when their issues are equal, their ids are equal where both have none, or one's issue is the other's id |
| `InboxDisplay.RowsAreNewest` | apps/mobile/lib/inbox-display.ts:65-71 | Where dates are readable, each row is the newest row of its group and rows come newest first |
| `InboxDisplay.RowShowsNewest` | apps/mobile/lib/inbox-display.ts:67-100 | A row is a newest member changed at most in its anchor: its own where it has one, else that of the newest member that has one; so an anchor of the group is shown unless the newest member carries the empty string |
| `InboxDisplay.EmptyAnchorHides` | apps/mobile/lib/inbox-display.ts:94-100 | A newest item with an empty anchor beside an older one with an anchor: the row shows none |
| `InboxDisplay.SortFilters` | apps/mobile/lib/inbox-display.ts:83-93 | Where dates are readable, the stable sort commutes with filtering |
| `InboxDisplay.TiesKeepIssueOrder` | apps/mobile/lib/inbox-display.ts:104-107 | Rows of one readable time keep the order of first appearance |
| `InboxDisplay.UndatedKeepOrder` | apps/mobile/lib/inbox-display.ts:83-107 | Where no date is readable, rows stay in the order in which their issues first appear |
| `InboxDisplay.DeduplicationIdempotent` | apps/mobile/lib/inbox-display.ts:72-108 | Where dates are readable, deduplicating twice is deduplicating once |
| `InboxDisplay.SecondPassSorts` | apps/mobile/lib/inbox-display.ts:72-108 | Whatever the dates are, a second deduplication only sorts the rows again |
| `ExceptionDedupe.SessionStorage.ShouldDropException` | packages/core/analytics/exception-dedupe.ts:40-78 | Verdict and stored blob for one event, with every failure keeping the event |
| `ExceptionDedupe.RunsStayHonest` | packages/core/analytics/exception-dedupe.ts:25-29 | Over every run stored counts are between 1 and 3, never above what was kept, for at most 50 fingerprints |
| `ExceptionDedupe.DropsOnlyRepeats` | packages/core/analytics/exception-dedupe.ts:13-17 | Whatever fails or is cleared, a drop follows at least three kept events of its fingerprint |
| `ExceptionDedupe.FailuresKeepTheEvent` | packages/core/analytics/exception-dedupe.ts:48-94 | Every failure keeps the event, and what cannot be read or written stays as it was |
| `ExceptionDedupe.ReliableFuse` | packages/core/analytics/exception-dedupe.ts:23-29 | With reliable storage an event is dropped exactly when its fingerprint is among the first 50 and has occurred three times |
| `CodeMask.MaskLines` | packages/core/attachments/image-sequence.ts:174-195 | The loop over the lines with a fence variable blanks whole blocks and masks other lines inline |
| `CodeMask.MaskCode` | packages/core/attachments/image-sequence.ts:174-197 | Split, loop and join |
| `CodeMask.FenceIff` | packages/core/attachments/image-sequence.ts:179 | A line is read as a fence exactly when up to three blanks precede a maximal run of at least three backticks or tildes |
| `CodeMask.Extent` | packages/core/attachments/image-sequence.ts:180-188 | A block extends through the first later fence of its character and at least its length, or to the end |
| `CodeMask.MaskingMovesNothing` | packages/core/attachments/image-sequence.ts:158-172 | Length and newline positions are unchanged |
| `FenceStandard.OpensIff` | packages/core/attachments/image-sequence.ts:179-194 | A line, without its ending, opens a block by section 4.5 of CommonMark exactly when the code reads it so and no tab stands in front of the marks and no backtick behind backticks |
| `FenceStandard.ClosesIff` | packages/core/attachments/image-sequence.ts:180-188 | A line, without its ending, closes a block by that section exactly when it does in the code, with no tab in front of the marks and only blanks behind them |
| `FenceStandard.ExtentsAgreeIff` | packages/core/attachments/image-sequence.ts:174-197 | Over lines without their endings a block is never longer than the standard has it, and as long if and only if no line before the last closes it, or the first that does is free of tabs in front and of text behind |
| `FenceStandard.TextBehindMarksCloses` | packages/core/attachments/image-sequence.ts:180-188 | A block that the code ends early |
| `FenceStandard.TabOrBacktickOpens` | packages/core/attachments/image-sequence.ts:179 | Two lines that open a block in the code alone |
| `FenceBlocks.LinesAgreeIff` | packages/core/attachments/image-sequence.ts:175 | Splitting at LF gives the lines of section 2.1 of CommonMark, but for the CR of a CR LF, if and only if every CR is followed by an LF |
| `FenceBlocks.TextReadsAlike` | packages/core/attachments/image-sequence.ts:174-197 | Then the code has the same blocks on its own lines and on the lines of the standard |
| `FenceBlocks.CrLfKeepsExtent` | packages/core/attachments/image-sequence.ts:180-188 | A CR at line ends changes no extent |
| `FenceBlocks.BlocksAgreeIff` | packages/core/attachments/image-sequence.ts:174-197 | Over a whole text the code and the standard have the same open block behind every line if and only if every line that opens or closes one in the code conforms: no tab in front, no late backtick, nothing but blanks behind a closing |
| `FenceBlocks.MaskedLine` | packages/core/attachments/image-sequence.ts:174-197 | Each line is blanked or masked inline by the block open in front of it and by being a fence |
| `FenceBlocks.SameLinesBlanked` | packages/core/attachments/image-sequence.ts:174-197 | Where all lines conform, the code blanks exactly the lines of the standard's blocks |
| `FenceBlocks.FirstDifferenceShows` | packages/core/attachments/image-sequence.ts:174-197 | The first line that does not conform is blanked by the code alone if it opens a block; if it closes one, the line behind it is left by the code alone, unless that is a fence or missing |
| `FenceBlocks.CutBlockLooksAlike` | packages/core/attachments/image-sequence.ts:174-197 | A block that the code cuts in two with no line blanked differently |
| `FenceBlocks.LoneCrHidesClosing` | packages/core/attachments/image-sequence.ts:174-197 | A lone CR in front of a closing line: the block is over in the standard and still open in the code |
| `ImageSequence.PushAll` | packages/core/attachments/image-sequence.ts:312-319 | Pushing keeps the first item of every non-empty key |
| `ImageSequence.CandidatesIff` | packages/core/attachments/image-sequence.ts:329-357 | A block shows exactly the images its body refers to, with key, address and name as the references and attachments give them, and the image attachments below it that neither are referred to nor have a twin that is |
| `ImageSequence.CandidatesInRenderOrder` | packages/core/attachments/image-sequence.ts:303-307 | First the images of the body in the order of the references, then those below it in the order of the attachments |
| `ImageSequence.CollectImageSequence` | packages/core/attachments/image-sequence.ts:309-361 | The block loop computes the first items by key of all candidates in render order |
| `ImageSequence.FirstByKeyKeys` | packages/core/attachments/image-sequence.ts:301-308 | Keys are non-empty and distinct, and every candidate key is kept |
| `ImageSequence.CollectingConcatenates` | packages/core/attachments/image-sequence.ts:301-361 | Collecting A then B is A's sequence followed by B's items whose keys A lacks |
| `ImageSequence.IndexInverts` | packages/core/attachments/image-sequence.ts:363-370 | Key lookup inverts indexing and finds exactly the keys there are |
| `ViewedIssues.ViewedIssuesStore.Push` | apps/mobile/data/viewed-issues-store.ts:36-41 | Promotes the id in its workspace; the whole store after it |
| `ViewedIssues.ViewedIssuesStore.Remove` | apps/mobile/data/viewed-issues-store.ts:42-52 | Removes the id in its workspace, creating no list; the whole store after it |
| `ViewedIssues.WorkspacesAreApart` | apps/mobile/data/viewed-issues-store.ts:34-53 | After any run over many workspaces each list is that of the workspace's own events |
| `ViewedIssues.UnboundedByLatestView` | apps/mobile/data/viewed-issues-store.ts:34-53 | The list without a capacity holds exactly the ids viewed and not removed since, strictly by the index of their latest view |
| `ViewedIssues.ListIsRecentPrefix` | apps/mobile/data/viewed-issues-store.ts:34-53 | After every run of views and removals the list is a duplicate-free prefix of that one, at most ten long, strictly newest view first |
| `ViewedIssues.ViewsKeepTheLatest` | apps/mobile/data/viewed-issues-store.ts:34-41 | Without removals it is exactly the ten latest |

## Left out

- Network and cache plumbing over fetch, React Query and zod schemas, all UI, configuration and copy.
- The order of equal comparisons and of inconsistent comparators inside the JavaScript engine's sort.
- PendingQueue: a property that is present but `undefined` is the same as an absent one.
- `encodeBuilderInput`, `decodeBuilderInput`, `pickBuilderRestore` and `mergeBuilderDraft`: field copying around `JSON.stringify` and `JSON.parse`.
- The grammar of JSON above its string literals: a parameter of `BuilderProtocol.DraftIsLenientParse`. Decoded text is a sequence of code units or points, not paired surrogates.
- MentionSessions.SessionsLinkEverything: covers edits behind the latest mention; edits inside or before a finished mention may fall back to plain text, as `MentionSerialize.SerializeMentions` states for every text.
- The web counterpart of the timeline and inbox rules, which the mobile files mirror.
- PluginBridge: theme listeners and style properties, real time (a timer is an event), and a bundle loaded without a window. Listeners are assumed not to call back into the bridge.
- WsClient: message dispatch to subscribers, frame validation, logging and URL building; a socket delivers nothing after `close()`.
- `stripQuickCreatePrefix` and `getInboxDisplayTitle`: regular-expression title clean-up.
- ExceptionDedupe: the fingerprint and its hash are abstract values; a stored blob is counts that this code wrote, or damaged, or missing.
- MentionLinks.LinkedTextReadsBack: says nothing about names or ids with brackets, which break the link syntax itself.
- FenceBlocks: texts with a CR that no LF follows have other lines in the standard; for them only the line count and one input are given. The standard's containers and indented code are not modelled.
- InboxDisplay.DeduplicationIdempotent: says nothing about unreadable dates, where the order of the second sort is up to the engine.
- TimelineThread.BuildTimelineRows: lists on which a search never ends are outside its contract, since the code then never returns; `TimelineSearch.SearchEndsIff` says which they are.
- CodeMask: the inline-code pattern is any map on a line that keeps its length; masking is not claimed to be idempotent.
- ImageSequence: reference extraction, attachment matching by URL, the image test and `contentReferencesAttachment` are parameters.
- `selectViewedIssueIds`: a lookup with a default.
