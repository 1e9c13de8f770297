# A verified model of the JMAP mail store and its protocol

The repository is a JMAP server library in Go: a mail store with a versioned change log, the handlers
that answer `Foo/changes`, `Foo/queryChanges`, `Foo/set` and `Foo/query` from it, a hub that wakes
connected clients, and the loop that evaluates a batch of method calls with result references. This
project models that core in Dafny and proves, for all inputs and all runs, that the pieces fit
together: that a client which only ever reads deltas ends up with what a full re-fetch would give it.
Where the code does not meet such a promise, the model keeps the code as it is and states exactly when
the promise holds.

Check everything with `dafny verify dfyconfig.toml`.

## How the model is built

- Code that updates fields is a class (`Stores.Store`, `Identities.IdentityStore`, `Hubs.Hub`,
  `Hubs.Channel`, `Hubs.EventStream`) with methods and loops; what a method does is stated by a function
  on values, and the theorems are about that function. A section under the store's mutex is one atomic
  step.
- Keyword and mailbox maps are heap objects, because the code patches them in place and a copied email
  shares them. Slices that are appended to or compacted in place are arrays with a length.
- A function that decides an answer has a lemma, mostly named `...Means`, that says what it computes in
  terms of the request and the stored data alone. What a filtering loop leaves is stated by positions
  (`Slices.Selects`), so order and repetitions are part of the claim.
- Every `range` over a Go map is a nondeterministic choice over a shrinking key set, so each result
  holds for every iteration order. Where the order is visible in a result it is named by a ghost
  sequence or an existential.
- A version window of the log is a sequence of Added/Updated/Removed events; the folds of the handlers
  are loops proved equal to a recursive function on that sequence.
- Counters are unbounded integers; parsing a state string still has the int64 range of
  `strconv.ParseInt`, and the query window has the wrap-around of `int(uint64)`.
- Hooks are verdicts in the request entries and do not touch the store, clock readings are request
  fields, the text search of `Email/query` is a parameter, and a JSON document is its tree.

| file | what it models |
|---|---|
| Delta.dfy, Journal.dfy | change records, windows, folds; a log together with the live ids it describes |
| Mail.dfy | the email mutations on values, runs of them, and a client's cache of contents |
| Text.dfy, Persistence.dfy | decimal keys, file names, the disk image and what a restart reads back |
| Threads.dfy | thread resolution and its consequences over runs of deliveries |
| Store.dfy | the class `Store` and `NewStore` |
| EmailHandlers.dfy, ThreadHandlers.dfy, Query.dfy | Email/changes, queryChanges, set, copy, query; threads |
| MailboxHandlers.dfy, Identities.dfy, SubmissionHandlers.dfy | the other batch setters |
| Hub.dfy, Wakeup.dfy | the hub, and the wake-up protocol as a state machine |
| Json.dfy, Paths.dfy, Evaluator.dfy, Batch.dfy | paths into JSON trees, result references, the call loop |
| Prelude.dfy, Slices.dfy | shared vocabulary; Go slices and the index over one |

## Findings

These promises fail for some inputs. Each has a lemma that says exactly when it holds or fails.

- The event stream writes its first event before it subscribes. A mutation and its `Notify` in between,
  after the client has polled, are never announced (`Wakeup.FirstEventRace`, `Wakeup.LostForGood`). No
  wake-up is lost in a run exactly if every subscription finds the client without a first sync, up to
  date or about to poll, and every logged mutation is followed by `Notify` or finds all clients about
  to poll (`Wakeup.RunKeepsWakeups`). With the other order, subscribing first, subscriptions need no
  such condition (`Wakeup.SubscribeFirstLosesNone`).
- Email/query reads the list and the state in two locked sections, and Email/get the emails and the
  state in several. Input: a client reads the list, then email m is put, then the client reads the
  state. It will poll from a version that includes m, and never hears of m, subscribed or not
  (`Wakeup.TornFirstSync`, `Wakeup.MissingForGood`). A first sync is right exactly if what was
  logged between the two reads concerns only ids that are still to be fetched or are right already
  (`Wakeup.StateExact`); for the state that comes with the list, exactly if no email was added in between
  that is not on it (`Wakeup.QueryStateExact`).
- Email/get also finds drafts. A client that fetches an id whose email is gone takes a draft of that id
  for it (`Wakeup.FetchExact`).
- Thread/changes looks at a removed email only if it is stored again, and never reports a thread as
  destroyed. Input: thread t holds a and b, then a is deleted; the answer is empty
  (`ThreadHandlers.DeletionGoesUnnoticed`). A client may keep the listing of an unreported thread exactly
  if none of its emails was destroyed or came back in another thread (`ThreadHandlers.UnreportedListing`).
- Mailbox/set accepts a create whose id is already stored. Input: a request renames mailbox x, the next one
  creates a mailbox with id x; Mailbox/changes then lists x as created and as updated
  (`Journal.CreatedAndUpdated`). The lists are disjoint exactly if no updated mailbox was created again
  without being destroyed (`MailboxHandlers.HandleMailboxChanges`), for instance if creates use ids that
  are not stored (`Journal.FreshCreatesDisjoint`).
- `Put` of a stored id replaces the content without a log entry, so caches stay stale
  (`Mail.CacheRefresh`, `Mail.StaleAfterOne`, `Mail.OverwriteGoesUnnoticed`).
- Two ids may share a message file; the later one then erases the earlier one from disk
  (`Text.SafeFilenameClash`, `Persistence.MirrorExact`, `Persistence.ClashLosesEmail`).
- The comment at store.go:56-58 says that a lost delta.json leads to `cannotCalculateChanges`. That
  lasts only until the restarted counter has reached the client's version; then the client gets a
  successful answer that may be wrong (`Journal.ReusedVersion`, `Journal.LostLogGoesUnnoticed`).
- `Email/copy` shares the keyword map of the source, so patching the copy patches the original without
  a log entry and without rewriting its file (`EmailHandlers.PatchTheCopy`, `Stores.SharingExact`).
- A limit of 2^63 or more panics on a page that has something to show (`Query.WindowInBounds`).
- `PutMailboxes` called on its own makes the mailbox log untruthful unless the ids stay the same
  (`Stores.Store.PutMailboxes`).
- A rename is lost if the creates of the same request moved the slice, or created that id
  (`MailboxHandlers.RenameIsStored`).
- An identity patch that sets another `id` leaves a stale index: the old id is reported destroyed while
  the identity survives (`Identities.PatchedIdSurvivesDestroy`). The index is true after the updates of a
  request exactly if none that works does so (`Identities.UpdatesKeepIndex`, `Identities.SetKeepsIndex`).
- A `null` in `create` of Identity/set panics between the lock and the unlock (identity.go:64-189): the
  creates met before it stay in memory and not on disk, and the mutex of the store stays taken, so every
  later request waits for ever (`Identities.IdentityStore.HandleIdentitySet`).
- The identity counter is not saved and restarts at zero (`Identities.IdentityStore.constructor`).
- Email/set removes the file of an email that stays if a destroyed id, stored or not, shares it
  (`EmailHandlers.HandleEmailSet`, `Persistence.MirrorAfterDrops`).
- An argument given both as `x` and as `#x` with different values depends on the iteration order
  (`Evaluator.OrderIrrelevant`).
- A reply that is delivered before its root is not joined by it (`Threads.ChildFirstStaysApart`).
- Two submissions with the same create key in the same second have one id
  (`SubmissionHandlers.SubmissionIdsClash`).
- `EmailSubmission/set` reports the new state as the old one too, and a rejected submission still uses
  up the draft (`SubmissionHandlers.HandleEmailSubmissionSet`).

The overview ARC.md calls `Email/copy` unsupported and `Mailbox/changes` always empty; the code
implements both, and the model follows the code.

## Model

| member | source | states |
|---|---|---|
| Delta.FoldMeaning | email.go:157-176 | for every log: an id is created (destroyed) iff its last Added/Removed event in the window is Added (Removed), and updated iff some update is not undone by a later removal and did not hit an id just added |
| Delta.Replay | email.go:154-176 | for every log and every start: dropping `destroyed` and taking `created` gives the ids after the window |
| Delta.LegalShape | email.go:157-176 | on logs a store can write, the three sets are disjoint, created and updated ids are live, updated ones were there all along, destroyed ones are dead |
| Delta.LegalUpdated | email.go:163-168 | on such logs `updated` is exactly the ids updated and neither added nor removed |
| Delta.CompositionOfIds | email.go:157-176 | created and destroyed compose over any two adjacent windows of any log |
| Delta.Composition | email.go:157-176 | on logs a store can write all three sets compose exactly: two polls combined are one poll |
| Delta.RecordEffect | mailbox.go:46-68 | a record that names ids several times adds first and removes last |
| Delta.RecordFold | email.go:157-175 | what one more record does to the three sets, from any point of any log, however often it names an id |
| Delta.DisjointExactly | mailbox.go:46-68 | if updates hit live ids only, the three sets are disjoint iff no id that was updated is created again without a removal in between |
| Delta.OverlapMeaning | mailbox.go:46-68 | for every log, an id is in created and in updated iff it was updated, to effect, and then created again |
| Delta.FoldWindow | email.go:154-176 | the loops over versions and records compute the fold of the window, and give up iff a version is missing from the log |
| Delta.FoldQueryWindow | email.go:211-225 | the queryChanges loop, which skips updates, computes the same created and destroyed sets |
| Journal.CommitKeeps | store.go:242-249 | appending a record keeps the log complete and truthful, rewrites no past version, and keeps it free of contradictions iff the record is |
| Journal.CommitsReplay | store.go:590-596 | over every run of commits the delta since any start turns the ids then into the ids now |
| Journal.ReplayBetween | email.go:154-176 | no version since the origin is refused, and the delta between any two versions turns the ids of one into those of the other |
| Journal.DeltaToNow | email.go:142-176 | the delta since any version is disjoint, live where it must be, and complete in both directions |
| Journal.DeltasCompose | email.go:154-176 | polling at a, b and c has the same net result as polling at a and c |
| Journal.CommitLiveUpdates | mailbox.go:218-235 | appending a record keeps updates on live ids iff it updates only what was live or what it adds itself |
| Journal.DisjointSince | mailbox.go:46-68 | the delta since a version is disjoint iff no updated id has been created again since |
| Journal.FreshCreatesDisjoint | mailbox.go:201-216 | it is, if every record since creates only ids that were not live when it was written |
| Journal.CreatedAndUpdated | mailbox.go:201-216 | x updated by one record and created by the next is reported as created and as updated |
| Journal.ReusedVersion | store.go:56-58 | after the log was lost, a client whose version number exists again gets a right answer iff its ids differ from the new version only where the delta says so |
| Journal.LostLogGoesUnnoticed | store.go:56-58 | a concrete such client is told that nothing changed although two emails are missing |
| Mail.PatchFlagsAt | store.go:421-435 | the patched map is, flag by flag, true/false where the patch says so, absent on null, else unchanged |
| Mail.PatchFlagsNext | store.go:421-435 | one more key of the patch, in any order, changes exactly its own flag |
| Mail.PatchedMeans | store.go:374-447 | flag by flag: `keywords/f` and `mailboxIds/f` set the flag f on true or false and remove it on null, which `PatchKeywords` ignores; nothing else changes |
| Mail.PatchTwice | store.go:407-447 | applying a patch again changes nothing more |
| Mail.DoCommits | store.go:231-447 | every mutation either leaves ids, counter and log alone or commits one record that is legal for the ids then live |
| Mail.DoKeeps | store.go:231-447 | every mutation keeps the store invariant and the ids of every past version |
| Mail.RunKeeps | store.go:231-447 | the invariant holds in every reachable state, and history is never rewritten |
| Mail.RunReplays | email.go:142-176 | from every reachable state the delta is never refused and leads to the ids of any later state |
| Mail.UnmentionedContent | store.go:231-447 | over any run, an id the log does not mention keeps its email except for what a later `Put` of it wrote |
| Mail.MentionedIsFetched | email.go:157-176 | a stored id is mentioned in the window iff the client is told to re-fetch it |
| Mail.MentionedIsDropped | email.go:157-176 | an id that is gone is mentioned in the window iff the client is told that it was destroyed |
| Mail.CacheRefresh | email.go:142-186 | a full copy of all emails, refreshed through the delta, has the server's ids and differs from it at exactly the ids that a `Put` silently replaced |
| Mail.CacheIsExact | email.go:142-186 | in runs without overwriting `Put`s the refreshed copy is the server's map |
| Mail.StaleAfterOne | store.go:242-249 | one mutation leaves the refreshed copy stale iff it is a `Put` of another content under a stored id |
| Mail.OverwriteGoesUnnoticed | store.go:242-249 | a concrete overwriting `Put` with an empty delta and a stale copy |
| Text.FormatParse | store.go:177-182 | parsing a formatted version gives it back, within int64 iff it fits |
| Text.FormatInjective | store.go:205-207 | no two versions share a decimal key |
| Text.FormatMeans | store.go:205-207 | formatting is decimal, digit by digit, with a sign for negative numbers |
| Text.ParseMeans | email.go:145-148 | for every string: parsing is an optional sign and decimal digits, at least one, within int64 |
| Text.SafeFilenameTwice | store.go:674-684 | a safe file name is left alone |
| Text.SafeFilenameMeans | store.go:674-684 | the first 200 bytes, with each of the nine reserved ones replaced by `-` |
| Text.SafeFilenameClash | store.go:674-684 | two ids share a file name iff they agree on their first 200 bytes, reserved characters and `-` counting as one, and neither is a shorter one |
| Text.SplitConcat | server.go:537 | splitting p/q is splitting p and then q |
| Text.TrimAnglesMeans | store.go:284-291 | what is left is a part of the text without angle brackets at its ends, and only angle brackets are cut off |
| Text.EqualFoldMeans | store.go:274 | equal letter by letter but for the case of A to Z |
| Persistence.SaveLog | store.go:198-210 | the saved map holds exactly the records under their decimal versions |
| Persistence.LoadLog | store.go:177-193 | the loaded log holds exactly what the parsable keys say, whichever of two keys for one number is met last |
| Persistence.LogRoundTrip | store.go:167-216 | saving and loading gives the log back, in every iteration order |
| Persistence.MessagesRoundTrip | store.go:146-159 | from files that mirror memory `NewStore` reads back exactly memory |
| Persistence.MirrorExact | store.go:235-252 | a mutation keeps the files a mirror of memory iff it neither writes nor removes the file of another stored email nor stores an email without id |
| Persistence.MirrorAfterDrops | email.go:304-313 | dropping emails and the files of the dropped ids keeps the mirror iff no dropped id, stored or not, has the file of an email that stays |
| Persistence.RestartRun | store.go:133-163 | after any run without such clashes a restart gives the same emails |
| Persistence.ClashLosesEmail | store.go:235-249 | a `Put` that hits the file of another email loses exactly that email at the next restart |
| Persistence.SlashAndColonClash | store.go:674-684 | `a/b` and `a:b` share a file |
| Threads.ResolveThreadID | store.go:272-300 | the loops find the thread: `thr-group-` and the value of the first Chat-Group-Id header that has one; else the thread of the first reference, In-Reply-To before References, that the Message-ID index knows one for; else `thr-` and the email's own Message-ID or id |
| Threads.GroupThreadMeans | store.go:273-277 | an email with a group header, in any letter case, is in the thread `thr-group-` and the first non-empty value; without one in no group thread |
| Threads.ResolvesMeans | store.go:272-300 | the possible results of resolution are exactly these, over every Message-ID index that the iteration order allows |
| Threads.BuildIndex | store.go:281-288 | the index has every normalised Message-ID of the store with the thread of an email that carries it |
| Threads.ResolvedNonEmpty | store.go:272-300 | resolution never yields an empty thread |
| Threads.RunThreaded | store.go:231-234 | over every run, no stored email is left without a thread |
| Threads.GroupThreads | store.go:273-277 | over every run, an email whose group header is g is in `thr-group-g`, and two such emails share a thread iff their header values are equal, in every order of arrival |
| Threads.JoinsThread | store.go:289-299 | an email joins thread t iff it refers to a stored email, when all those are in t |
| Threads.TreeStaysTogether | store.go:272-300 | over every run in which each delivery to a reply tree refers to a stored email of it, or derives the root's thread, and to nothing stored outside, all its emails carry the root's thread |
| Threads.TreeFromData | store.go:272-300 | in terms of the emails: with unique Message-IDs, references that stay inside the tree, no group headers and parents delivered first and not removed in between, all emails of the tree carry the root's thread |
| Threads.ChildFirstStaysApart | store.go:289-299 | a reply delivered before its root shares its thread iff both derive the same thread id on their own |
| Stores.Store.Put | store.go:231-252 | inserts or overwrites, delivers an email without a thread to one that resolution yields, performs the value-level operation on emails, counter, log and files, and keeps delta.json in step |
| Stores.Store.Delete | store.go:314-324 | removes a stored email, logs it, removes its file; an unknown id changes nothing in memory |
| Stores.Store.Purge | store.go:332-354 | removes every email under one version, in any listing order, and every message file |
| Stores.Store.PatchEmail | store.go:407-447 | patches both maps in place and logs it; every email sharing a map shows the patch; without sharing it is the value-level patch; separate maps stay separate |
| Stores.Store.PatchKeywords | store.go:374-403 | the same for keywords, where null is ignored |
| Stores.PatchMaps | store.go:421-435 | in every order of the patch keys the two maps end as the pointwise patch |
| Stores.PatchKeywordMap | store.go:385-391 | the same for the loop of `PatchKeywords` |
| Stores.SharingExact | store.go:407-439 | a patch touches only its own email iff it changes nothing in the maps that others share with it |
| Stores.StoringKeepsApart | store.go:242-244 | storing an email with maps of its own keeps all maps apart |
| Stores.PatchingKeepsApart | store.go:413-435 | patching keeps all maps apart |
| Stores.Store.SaveStateLocked | store.go:196-216 | delta.json then holds exactly the counters, logs and submissions |
| Stores.Store.constructor | store.go:133-194 | `NewStore`: emails from the message files, each with maps of its own; counters and logs from delta.json or empty |
| Stores.LoadMessages | store.go:146-159 | the directory loop |
| Stores.Restart | store.go:133-216 | stopping and reopening gives the same emails, counters, logs, mailboxes and submissions, and no drafts |
| Stores.OpenEmpty | store.go:133-163 | over an empty directory: every invariant holds, nothing is stored; where runs begin |
| Stores.Store.TakePending | store.go:459-467 | takes a draft at most once |
| Stores.Store.PutMailboxes | store.go:474-480 | overwrites the list without logging; the mailbox log stays truthful iff the ids do not change |
| Stores.Store.SyncMailboxes | store.go:487-519 | makes the mailbox ids those of the argument, commits one record with the exact difference, and does nothing if the ids agree |
| Stores.Store.SyncTwice | store.go:484-519 | a second sync to the same list does nothing |
| Stores.Store.ReplaceMailboxes | store.go:514-518 | overwriting the list and logging the difference of the ids keeps the mailbox log truthful |
| Stores.Store.AddSubmission | store.go:634-640 | the list and the counter grow by one and are saved |
| EmailHandlers.HandleEmailChanges | email.go:136-187 | refused iff the state is malformed, in the future or before the log; else three duplicate-free disjoint lists that turn the ids then into the ids now |
| EmailHandlers.HandedOutState | email.go:145-152 | a state string that was handed out for a version is accepted iff the version is in the range |
| EmailHandlers.HandleQueryChanges | email.go:191-249 | refused for the same states; removed and added are the same two sets, with the indices 0..n-1 |
| EmailHandlers.HandleEmailSet | email.go:255-325 | in every iteration order: `destroyed` lists the accepted ids in request order, as often as named, `updated` the accepted ids with a patch that decodes, every key lands in one outcome; the delta since the old state has created empty, destroyed = the destroyed ids that were live, updated = the other updated ones that were live, and the counter advances by one for each; if no maps were shared, the emails are the old ones without the destroyed, each updated one patched, and the files still mirror them iff no destroyed id has the file of an email that stays; only files of those ids are touched |
| EmailHandlers.RunUpdates | email.go:283-302 | the update loop: its effect on the log also when emails share maps, on the emails and their files when they do not; only files of accepted ids are touched |
| EmailHandlers.RunDestroys | email.go:304-313 | the destroy loop: exactly the accepted ids, in request order and as often as named, are reported and gone from log, emails and files; the others are in notDestroyed |
| EmailHandlers.CopyOne | email.go:342-361 | one entry of Email/copy is a `Put` of the source under a new id, with mailboxes of its own if given and with the keyword map of the source |
| EmailHandlers.PatchTheCopy | email.go:347-352 | patching a fresh copy changes the original, while the log names only the copy and the file of the original stays as it was |
| ThreadHandlers.GroupByThread | thread.go:26-34 | the grouping loop puts every email with a thread in its group once |
| ThreadHandlers.ListingMeans | thread.go:26-44 | a listing is each email of the thread once, none before one received earlier; a missing time counts as the zero time |
| ThreadHandlers.SortOldestFirst | thread.go:37-39 | sorting yields an ordered permutation |
| ThreadHandlers.AllThreads | thread.go:25-47 | every thread once, each with exactly its emails, oldest first |
| ThreadHandlers.ThreadsPartition | thread.go:25-47 | every email with a thread is listed at exactly one place |
| ThreadHandlers.AllForThread | thread.go:50-63 | exactly the stored emails of the thread, oldest first |
| ThreadHandlers.HandleThreadGet | thread.go:67-118 | every requested id is, in request order, either in the list with the listing of its thread, if some email has that thread, or in notFound |
| ThreadHandlers.ListingsAgree | thread.go:25-105 | any two listings of a thread are permutations, and equal if no two emails have one time |
| ThreadHandlers.HandleThreadChanges | thread.go:122-180 | refused as Email/changes; `updated` is exactly, each once, the threads of the created and updated emails |
| ThreadHandlers.UnreportedListing | thread.go:140-164 | over every run whose overwriting `Put`s move no email, the listing of a thread that is not reported is still right iff none of its emails was destroyed or came back elsewhere |
| ThreadHandlers.DeletionGoesUnnoticed | thread.go:159-164 | deleting an email shrinks its thread, and nothing is reported |
| Query.AllIds | store.go:357-370 | every stored email once, newest first |
| Query.ResultMeans | email.go:92-107 | the result list has exactly the emails that are in the asked mailbox, if any, and contain the asked text, if any, each once, none before a newer one |
| Query.HandleEmailQuery | email.go:81-132 | the page is a window of the matching emails, each once, newest first; the total is their number; no panic below a limit of 2^63; with the state when nothing happens between the two reads |
| Query.WindowInBounds | email.go:108-131 | the slice is out of bounds iff the limit is 2^63 or more and the page has something to show |
| Query.WindowShows | email.go:108-131 | which emails a page shows, and how many |
| Query.PagesTile | email.go:108-131 | consecutive pages of one list concatenate to its prefix |
| Query.PagesCoverAll | email.go:92-131 | with distinct times, pages 0, L, 2L, ... of separate calls concatenate to exactly the matching emails, newest first |
| MailboxHandlers.HandleMailboxChanges | mailbox.go:28-79 | refused iff out of range; else the answer turns the mailbox ids then into the ids now, also when records repeat ids, and its three lists are disjoint iff no updated mailbox was created again |
| MailboxHandlers.HandleMailboxQueryChanges | mailbox.go:118-173 | the same sets, numbered |
| MailboxHandlers.RunCreates | mailbox.go:201-216 | for every order, capacity and growth: the slice, the index and the response after the creates |
| MailboxHandlers.RunRenames | mailbox.go:218-235 | writing through pointers reaches the slice iff it did not move and the id was not created here |
| MailboxHandlers.HandleMailboxSet | mailbox.go:176-277 | the stored list is the patched one without the destroyed ids, element by element and in order: mailboxes that the request does not name keep their whole record, each accepted create is stored with the name and the rest it was given and the reported id, a rename that reaches the slice is stored, nothing else is; the three outcomes are those of the request; the delta since the old state is exactly what was created, renamed and destroyed; the log stays truthful |
| MailboxHandlers.PatchedMeans | mailbox.go:218-235 | the patched list entry by entry: the last entry of a renamed id gets the new name unless the slice moved or the id was created here; the created mailboxes follow |
| MailboxHandlers.MadeMeans | mailbox.go:201-216 | a created mailbox has the name and the rest of its request, and its id or `mbx-` and the key |
| MailboxHandlers.KeptMeans | mailbox.go:254-261 | the filter leaves exactly the mailboxes with other ids, as they were |
| MailboxHandlers.RunMailboxDestroys | mailbox.go:237-252 | the accepted known ids in request order, as often as named; all others are refused |
| MailboxHandlers.RenameIsStored | mailbox.go:187-227 | an accepted rename is stored iff the slice did not move and no mailbox of that id was created along with it |
| Identities.IndexedReplace | identity.go:147-148 | overwriting an identity keeps the index true iff its id stays |
| Identities.UpdateKeepsIndex | identity.go:105-155 | an update keeps the index true iff its patch sets no other id, and then changes only what that id means |
| Identities.UpdatesMeaning | identity.go:105-155 | the whole update loop in every order, if no working patch sets another id: each leaves its base overlaid with the patch, nothing else changes, the counter counts them |
| Identities.UpdatesSlots | identity.go:105-155 | after the loop the slot of every working update holds its id iff its patch set no other one; the other slots are as before |
| Identities.UpdatesKeepIndex | identity.go:105-155 | the index is true after the update loop iff no working patch sets another id, in every order |
| Identities.CreatesMeaning | identity.go:82-103 | the whole create loop keeps the index true and counts the creates; what an id means afterwards is what its last create made (LastMadeMeans, field by field) or what it meant before |
| Identities.MadeMeans | identity.go:82-102 | a created identity has every field of its request, and as id the given non-empty string or `identity-` and the key |
| Identities.LastMadeMeans | identity.go:82-103 | for every order: what the creates leave under an id is what the last working create that gives it stores, field by field |
| Identities.KeepMeaning | identity.go:174-182 | the filter removes exactly the destroyed ids |
| Identities.KeepSelects | identity.go:174-182 | it keeps the others as they are and in order |
| Identities.DestroyedListMeans | identity.go:157-172 | `destroyed` lists the accepted indexed ids in request order, as often as named |
| Identities.SetKeepsIndex | identity.go:67-172 | the index that the destroys of a request consult is true iff none of its working updates sets another id |
| Identities.SetMeaning | identity.go:56-202 | the three loops and the filter together, for such requests, in terms of the loops: index, counter and what every id means afterwards (SetMeans, field by field) |
| Identities.SetMeans | identity.go:56-202 | for such requests, on every id and in every order: a created identity has the fields of its request, an updated one those of the patch over its base, a destroyed one is gone, and `updated` and `destroyed` report exactly that |
| Identities.CreateIsStored | identity.go:82-103 | an accepted create whose id no other create gives, and that is neither updated nor destroyed along with it, is found under its id with every field of the request |
| Identities.DefaultMeans | store.go:557-573 | the fields of the made-up identity; its name is the part of the address before the first `@`, if there is one |
| Identities.UpdatedListMeaning | identity.go:105-155 | the reported updates are those that work on the table before the loop, in every order |
| Identities.DefaultIsUpserted | identity.go:107-152 | editing the made-up default identity stores it: the next get is the earlier get plus the patch |
| Identities.PatchedIdSurvivesDestroy | identity.go:134-182 | whenever a working patch sets another id, destroying the old id in the same request is reported and the identity survives |
| Identities.IdentityStore.FilterInPlace | identity.go:174-182 | compaction in the shared array equals the functional filter |
| Identities.IdentityStore.Append | identity.go:99-100 | the list grows by the new identity, in place or in a larger array |
| Identities.IdentityStore.constructor | store.go:538-547 | the list is loaded, the counter restarts at zero |
| Identities.IdentityStore.HandleIdentityGet | identity.go:12-32 | the stored list, or the default while it is empty, with the state; waits for ever once the mutex is left taken |
| Identities.IdentityStore.HandleIdentitySet | identity.go:56-202 | list, counter and response are those of the value-level result that SetMeans spells out, the created keys and ids those of the request, and identities.json is kept up to date; it panics iff some create is null, and then leaves the creates met so far in memory, identities.json as it was and the mutex taken; with the mutex taken it changes nothing |
| SubmissionHandlers.SubmitOne | submission.go:120-146 | one entry: takes the draft if there is one, else the stored email, and records an accepted submission |
| SubmissionHandlers.SubmissionIdsClash | submission.go:137 | two submissions have one id iff they have the same key and were made in the same second |
| SubmissionHandlers.HandleEmailSubmissionSet | submission.go:103-164 | every key is in one of created and notCreated; the list grows by exactly one record for each created key, the counter by their number; which entries reach the hook and which drafts are left |
| SubmissionHandlers.DraftSubmittedOnce | submission.go:120-123 | a draft that is not stored reaches the hook exactly once if an entry names it, in every order |
| SubmissionHandlers.AtMostOncePerDraft | store.go:452-467 | over every run of drafts, requests and restarts, an email that is not stored reaches the hook at most once per `PutPending` |
| SubmissionHandlers.Serve | submission.go:103-164 | over every run of drafts, requests and restarts, the submission counter stays the number of submissions, these only grow, and an email that is not stored reaches the hook at most once for each time the inputs put it; if they put it once, at most one entry of one request that names it reaches the hook |
| Hubs.Hub.Notify | server.go:108-118 | fills the slot of every subscriber and never blocks |
| Hubs.Hub.Subscribe | server.go:120-126 | a new channel with an empty slot |
| Hubs.EventStream.constructor | server.go:400-406 | the first event is out before there is a subscription |
| Hubs.EventStream.Wake | server.go:413-419 | one event for however many notifications, and the slot is empty again |
| Wakeup.WindowMeaning | email.go:142-176 | between a client's version and now, the log mentions a stored id iff the delta says fetch, and a missing one iff it says destroyed |
| Wakeup.PollKeepsKnowledge | email.go:136-187 | a poll is never refused, and the client is then right about every id it does not still have to fetch |
| Wakeup.FetchExact | email.go:59-65 | fetching one email at any later moment keeps what the client knows iff the answer is no draft in the place of a deleted email, or the log mentions the id anyway |
| Wakeup.StateExact | email.go:92-131 | reading the state after the list keeps what the client knows iff what was logged in between concerns only ids still to be fetched or right already |
| Wakeup.QueryStateExact | email.go:92-131 | for the state that comes with the list: iff no email was added in between that is not on the list |
| Wakeup.StepKeepsKnowledge | email.go:51-187 | every locked section of every interleaving keeps what each client knows, the reading of a state or an email iff it is safe |
| Wakeup.TornFirstSync | email.go:92-126 | an email put between the two reads is missing for the client |
| Wakeup.MissingStaysMissing | email.go:136-187 | no step but a logged mutation of that email ends this |
| Wakeup.MissingForGood | email.go:136-187 | over every run that logs no mutation of that email it stays missing, however often the client polls |
| Wakeup.StepKeepsWakeups | server.go:108-132 | a step loses no wake-up iff it is safe |
| Wakeup.RunKeepsWakeups | server.go:390-429 | at no point of a run is a wake-up lost iff every step of the run is safe |
| Wakeup.RunKeepsAll | server.go:390-429 | knowledge and wake-ups over every well-behaved run |
| Wakeup.Converged | server.go:108-132 | in every interleaving of a well-behaved run, once nothing is in flight every subscribed client that has synced is up to date |
| Wakeup.ReactionDecreases | server.go:108-118 | reactions cannot go on for ever |
| Wakeup.ReactionExists | server.go:408-419 | while something is in flight some reaction is possible |
| Wakeup.ReactionsKeepAll | server.go:108-132 | whatever reactions happen from such a state, in whatever order, the invariants hold and the server is untouched |
| Wakeup.ReactionsEnd | server.go:108-132 | no sequence of reactions is endless |
| Wakeup.NoReactionLeft | server.go:108-132 | where they end, with no reaction left, every subscribed, synced client is up to date |
| Wakeup.Drains | server.go:108-132 | from every state that a well-behaved run reaches, if no draft has the id of a deleted email still to be fetched, some run of reactions alone brings all subscribed, synced clients up to date |
| Wakeup.FirstEventRace | server.go:403-408 | a run, from a state where every invariant holds, in which the first event precedes the subscription and a wake-up is lost |
| Wakeup.LostStaysLost | server.go:390-429 | no step but a notified mutation, a poll of the client's own or a disconnection ends this |
| Wakeup.LostForGood | server.go:390-429 | over every run without those the wake-up stays lost |
| Wakeup.SubscribeFirstLosesNone | server.go:403-408 | had the stream subscribed before its first event, no run whose mutations are notified would lose a wake-up |
| Paths.JsonPath | server.go:532-562 | the loop computes the walk along the segments, with its errors |
| Paths.PathsCompose | server.go:532-562 | resolving p and then q is resolving p/q, errors included |
| Paths.LeadingSlash | server.go:537-540 | empty segments, so also a leading slash, are neutral |
| Paths.PrintedPathResolves | server.go:537-561 | the printed way to a node resolves to that node |
| Paths.ResolvedIsNode | server.go:537-561 | whatever a path resolves to is the node that its non-empty segments name |
| Paths.SpelledResolves | server.go:537-561 | a node is found by every path whose segments name the way to it, an index in any spelling that parses to it |
| Paths.ResolvesExactly | server.go:532-562 | a path resolves to a value iff its segments name a way to that value in the tree |
| Evaluator.ResolveRefs | server.go:490-529 | the outcome is that of some iteration order; it succeeds iff every reference resolves; without references the arguments pass through |
| Evaluator.RefMeans | server.go:511-517 | which call and path a reference names, and which values are no reference |
| Evaluator.ResolvesIff | server.go:506-528 | in every order: success iff all references resolve |
| Evaluator.WrittenMeaning | server.go:506-527 | without disagreeing keys every argument ends with its own value, in every order |
| Evaluator.WrittenFrom | server.go:506-527 | also with disagreeing keys, every argument is the value of one of its keys |
| Evaluator.OrderIrrelevant | server.go:506-527 | the resolved arguments are the same for all orders iff no argument is given both plainly and by a reference with another value |
| Batch.ServeApi | server.go:347-387 | state and responses are those of the evaluation, whose every step CallMeaning spells out; every readable call gets its one answer, in order |
| Batch.CallMeaning | server.go:350-381 | for every request and every iteration order, what its last call does: a call without references gives its handler the arguments as they are; one whose references all resolve gives it exactly the plain arguments and, for every key `#x`, as `x` the value at the path in the latest earlier success of the call id; the new state is the handler's and its result or error is the answer; a call with a reference that does not resolve changes nothing and is answered with serverFail; an unreadable one is skipped |
| Batch.CallMeans | server.go:351-357 | which element of a call is its name, its arguments and its id, and what missing and ill-typed ones become |
| Batch.PrefixStable | server.go:350-381 | the responses to a prefix of the calls are a prefix of the responses |
| Batch.ReferencesSeeLatest | server.go:347-377 | references always see the latest earlier success of a call id |
| Batch.LatestMeaning | server.go:365-377 | what the latest success of a call id is |
| Batch.BadReferenceIsHarmless | server.go:359-363 | a call with an unresolvable reference never reaches its handler and is answered with serverFail |
| Batch.ForwardReference | server.go:359-363 | in particular one that refers to a later or failed call |
| Batch.OneReplyPerCall | server.go:350-381 | answers correspond to readable calls one to one, in order, by name and call id |
| Batch.BatchOrderFree | server.go:347-381 | a request that gives no argument twice has one meaning for all iteration orders, up to the text of reference failures |

## Left out

- Crashes between two writes and failed disk writes: the code orders file and log writes without
  atomicity, so the persistence theorems are about crash-free sequential runs.
- Handlers that take the lock several times: the interleavings of the reads of a first sync and of a poll
  are steps of Wakeup.dfy; the other handlers (the whole of Mailbox/set, Thread/get, the batch setters
  as a whole) and file writes outside the lock are modelled sequentially.
- Hooks that change the store or the object they are given (the create hook of Email/set, the hooks of
  Mailbox/set and Identity/set get a pointer or a map); the model takes only their verdicts, and for
  created emails the returned id.
- Order of the `index` values of queryChanges and filters in query deltas: the code numbers the ids in
  map order and ignores filters, so only the unfiltered sets and the numbering are claimed.
- EmailHandlers.CopyOne: is one entry of Email/copy; the loop over the entries and its response are not
  modelled, and the content theorems speak of stores whose emails share no maps.
- Wakeup.Converged: the server itself never calls `Notify` after a mutation, the embedding program does;
  each mutation step says whether it will, and the theorems ask for it. A client lists all emails in one
  page without a filter and syncs from scratch once; pings, write errors and Web Push are not modelled.
- Query.HandleEmailQuery: which emails contain a text is a parameter of the filter.
- Evaluator.ResolveRefs: error texts do not name the offending key; field names of a reference are
  matched exactly, where Go also accepts other capitalisations.
- Batch.ServeApi: HTTP decoding, method dispatch and results that cannot be encoded as JSON.
- JSON numbers are integers kept exactly; Go reads them as float64 while it walks a path, so numbers
  beyond 2^53 may come out rounded.
- Counters that overflow int64, and time zones or formats of timestamps: counters are unbounded, times
  are integers, formatted times are strings given with the request.
- A nil map and an empty map in an email read alike; the difference shows only in the JSON text.
- Identities live in their own class with their own file; of the mutex that couples them to the rest of
  the store only its being left taken is modelled.
- Get methods other than Identity/get and Thread/get, Identity/changes and EmailSubmission/changes
  (constant empty lists), Mailbox/query, Email/import and Email/parse: they would add only easy members.
- MIME parsing and building, blobs, contacts, vacation, activity log, storage listing, metrics, push,
  authentication, CORS, the session document, anchor/ and cmd/: plumbing around the modelled core.
