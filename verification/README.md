# Mob Vibe Coding — the small state and string cores, in Dafny

This project models the pieces of logic of the "Mob Vibe Coding" web
application (a site where users prompt an AI model for HTML/JS game
iterations, share them and befriend each other) that carry behaviour of
their own, and proves properties of them:

- **Diff** and **Iterations** — the iterations sidebar: the line-by-line
  comparison `highlightDiff` (with its `"[No changes]"` sentinel), the list
  of iterations extended by each creation response, its newest-first stable
  sort, the per-card "compare with the next older iteration" rule and the
  line count. **Lines** models JavaScript's `split("\n")` and `join`.
- **EventStream** — the client event-stream hooks: the state step run by a
  subscription's message handler (latest-only, bounded history, or leave a
  non-array value alone), with the overflow branch of `addNewEvent` modelled
  as written; listener registration and cleanup on an event source; the
  process-wide URL-to-source registry and the per-hook creation latch.
- **Friends** — friendship requests over two relations: friendship rows
  `(user, friend)` and pending requests keyed by id. Send, accept, reject,
  remove, the three list queries and the status query.
- **FriendAdd** — the add-friend route: authorization, email validation,
  lookup, self-check, send, and the mapping of each outcome to a status and
  JSON body, alone and composed with **Friends**.
- **EditableText** — the click-to-edit text: display/editing modes, submit
  only if changed, Enter and blur submit, Escape restores, prop reset.
- **IframeLogs** — console capture for the game iframe: selector guard,
  message filter, `[TYPE] message` formatting, the log reset on id change,
  the window message listeners the effect adds and removes (including the
  one it leaks when the iframe is missing, see Findings), and injection of the console-override script right after the
  first `<body…>` tag (case-insensitive) or at the end.

Everything is pure functions over immutable values; effects become explicit
inputs and outputs. The database is two abstract relations; validators,
lookups and the send operation of the route are function parameters; every
React effect is a state step. The bounded history of the event-stream hook
is not a window over the latest events (see Findings), and a history may hold
`max + 1` entries because trimming starts only when the length exceeds the
bound.

## Model

| member | source | states |
|---|---|---|
| Lines.Split | app/components/iterations-sidebar.tsx:21-22 | `split("\n")` always yields at least one line, and no line contains a newline |
| Lines.JoinSplit | app/components/iterations-sidebar.tsx:21-22 | joining the split lines with a newline gives back the original string |
| Lines.SplitJoin | app/components/iterations-sidebar.tsx:45 | splitting newline-free lines after joining them gives the lines back |
| Lines.JoinEnds | app/components/iterations-sidebar.tsx:45 | `join` starts with the first part and ends with the last one, whatever the separator |
| Lines.SplitLength | app/components/iterations-sidebar.tsx:143 | the line count is the number of newlines plus one |
| Diff.HighlightDiff | app/components/iterations-sidebar.tsx:20-46 | the loop computes the reference comparison; the result is `"[No changes]"` exactly when the new lines are an initial segment of the old lines, and is never empty |
| Diff.EntriesAtCases | app/components/iterations-sidebar.tsx:25-38 | a line index contributes nothing exactly when both contents have the same line there; otherwise it ends with the added new line, preceded by the removed old line exactly when the old content reaches that index |
| Diff.DiffTextLines | app/components/iterations-sidebar.tsx:20-46 | unless it is `"[No changes]"`, the lines of the output are exactly the emitted entries in line-index order, each a `"+ "` or `"- "` marker followed by a line without a newline |
| Diff.NoChangesIff | app/components/iterations-sidebar.tsx:25-43 | both directions: sentinel if and only if every new line equals the old line at its index |
| Diff.DiffTextNonEmpty | app/components/iterations-sidebar.tsx:41-45 | the output is never the empty string |
| Diff.SameContentNoChanges | app/components/iterations-sidebar.tsx:25-43 | equal contents compare as `"[No changes]"` |
| Diff.OldTailIgnored | app/components/iterations-sidebar.tsx:25-27 | old lines at indices at or past the new line count never influence the entries |
| Diff.TailDeletionUnreported | app/components/iterations-sidebar.tsx:25-43 | comparing `"a\nb\nc"` with `"a"` answers `"[No changes]"`: deleted trailing lines are not reported |
| Diff.ChangedLineIndexLost | app/components/iterations-sidebar.tsx:25-45 | the output does not determine the new content even given the old: `"p\nq"` and `"q\np"` both compare against `"p\np"` as `"- p\n+ q"` |
| Diff.AppendedLinesOnly | app/components/iterations-sidebar.tsx:29-31 | when the old lines are a prefix of the new ones, exactly one `"+ "` entry per appended line is emitted, in order |
| Iterations.OnFetcherData | app/components/iterations-sidebar.tsx:63-67 | a returned iteration is put in front and the rest of the list is unchanged; no iteration, no change |
| Iterations.Insert | app/components/iterations-sidebar.tsx:71-74 | one insertion step of the sort adds exactly the inserted entry to the multiset |
| Iterations.InsertOrdered | app/components/iterations-sidebar.tsx:71-74 | inserting into a newest-first list keeps it newest first |
| Iterations.SortNewestFirst | app/components/iterations-sidebar.tsx:71-74 | the display order is non-increasing in creation time, a permutation of the stored list, and stable for equal times |
| Iterations.SortedUnchanged | app/components/iterations-sidebar.tsx:71-74 | sorting a list that is already newest first changes nothing |
| Iterations.LineCount | app/components/iterations-sidebar.tsx:143 | the line count is at least one and equals the newline count plus one |
| Iterations.Cards | app/components/iterations-sidebar.tsx:134-143 | every card but the last shows the comparison with the next card's content, the last shows raw content |
| Iterations.View | app/components/iterations-sidebar.tsx:71-143 | the rendered list holds each stored iteration exactly once, newest first; every card but the last shows the comparison with the card below it, the last its raw content, and every line count is at least one |
| Iterations.NewestPrependedOnTop | app/components/iterations-sidebar.tsx:63-74 | a newest returned iteration appears as the top card, compared with the previous top, and every other card is unchanged |
| EventStream.AddNewEvent | app/lib/eventstream.ts:33-38 | at or below the bound the event is appended; above it the single removed element is spread before the event, and an empty array throws |
| EventStream.Spread | app/lib/eventstream.ts:35 | spreading succeeds exactly on strings (into one-character strings, in order) and arrays (into their elements); anything else throws a TypeError |
| EventStream.Step | app/lib/eventstream.ts:65-83 | a throwing deserializer aborts the update; latest-only mode yields the payload; in history mode a changed state is an array ending with the payload, and an array or false-like state stays an array |
| EventStream.RunSnoc | app/lib/eventstream.ts:64-84 | each further message applies one handler update to the state the earlier ones left, and an earlier error stops the run |
| EventStream.InitialState | app/lib/eventstream.ts:57-59 | the state starts as the initial data, or null when it is null or absent |
| EventStream.StepLatestOnly | app/lib/eventstream.ts:66-72 | in latest-only mode the next state is the payload, whatever the previous state |
| EventStream.RunLatestOnly | app/lib/eventstream.ts:65-72 | after any non-empty run of messages in latest-only mode, each accepted by the deserializer when there is one, the state is the payload of the last message: its deserialized value, or its raw text without a deserializer |
| EventStream.StepAppends | app/lib/eventstream.ts:74-76 | in history mode an array of at most `max` entries grows by exactly the payload |
| EventStream.StepStartsHistory | app/lib/eventstream.ts:78-80 | in history mode a false-like state becomes a one-element history for every bound of at least 0 |
| EventStream.StepNegativeBoundThrows | app/lib/eventstream.ts:33-35 | with a negative bound, starting a history throws a TypeError |
| EventStream.StepKeepsOtherState | app/lib/eventstream.ts:82 | in history mode a truthy non-array state is returned unchanged |
| EventStream.StepOverflow | app/lib/eventstream.ts:34-35 | above the bound the next state is the characters of the oldest string entry then the payload; a non-iterable oldest entry throws |
| EventStream.Defaults | app/lib/eventstream.ts:45-48 | without options, or without bound and channel, the bound is 50 and the channel "message" |
| EventStream.HistoryHoldsMaxPlusOne | app/lib/eventstream.ts:34 | a history started from nothing holds the first `max + 1` payloads unchanged |
| EventStream.HomePageSecondMessage | app/routes/_index.tsx:25-28 | with bound 0 the second message already leaves the characters of the first followed by the second |
| EventStream.AddNewEventIntended | app/lib/eventstream.ts:33-38 | the corrected rule keeps the length when over the bound and grows by one otherwise |
| EventStream.IntendedKeepsLatest | app/lib/eventstream.ts:33-38 | under the corrected rule the history is always the latest `max + 1` payloads in arrival order |
| EventStream.OverflowIsNotWindow | app/lib/eventstream.ts:35 | a concrete input where the written overflow differs from the window, and an object history that throws |
| EventStream.AddListener | app/lib/eventstream.ts:90-92 | adding a registered listener does not duplicate it; others are untouched |
| EventStream.RemoveListener | app/lib/eventstream.ts:86-88 | the removed listener is gone and every other keeps its count |
| EventStream.Attach | app/lib/eventstream.ts:61-99 | with no source nothing is registered; with one the handler is registered exactly once on its channel and returned for cleanup |
| EventStream.Detach | app/lib/eventstream.ts:97-99 | cleanup removes the handler and nothing else |
| EventStream.Receivers | app/lib/eventstream.ts:90-92 | a message on a channel reaches exactly the handlers registered on it |
| EventStream.Resubscribe | app/lib/eventstream.ts:94-99 | re-running the effect leaves the new handler once, the previous one gone, others unchanged |
| EventStream.BothSubscribersReceive | app/lib/eventstream.ts:90-92 | two subscriptions on the same source and channel both receive later messages |
| EventStream.GetOrCreate | app/lib/eventstream.ts:133-134 | a known URL gets its cached source and nothing changes; an unknown one gets a new source; afterwards URL maps to it and other keys are unchanged |
| EventStream.SelectSource | app/lib/eventstream.ts:131-137 | with the latch set nothing happens; otherwise the source is selected and the latch set |
| EventStream.SelectedOnce | app/lib/eventstream.ts:132 | a hook selects its source at most once, even when the URL changes |
| EventStream.SameUrlSharesSource | app/lib/eventstream.ts:112-140 | two hooks on the same URL share one source and only one is constructed |
| Friends.Send | app/crud/friends.server.ts:5-39 | refused with "Already friends" first, then "Friend request already sent" for the same direction only; otherwise exactly one pending row is added and friendships are unchanged |
| Friends.Accept | app/crud/friends.server.ts:41-77 | refused unless the request has the id and is addressed to the caller; otherwise both friendship directions are added and that request removed |
| Friends.Reject | app/crud/friends.server.ts:79-91 | only a request with both the id and the caller as receiver is deleted; friendships are unchanged |
| Friends.Remove | app/crud/friends.server.ts:98-123 | both directions of the pair are deleted and nothing else |
| Friends.FriendsOf | app/crud/friends.server.ts:125-132 | the friends of a user are exactly the targets of its friendship rows |
| Friends.PendingReceived | app/crud/friends.server.ts:134-144 | exactly the requests addressed to the user |
| Friends.PendingSent | app/crud/friends.server.ts:146-156 | exactly the requests the user sent |
| Friends.StatusOf | app/crud/friends.server.ts:158-193 | friends, then pending sent, then pending received, then none, each as an if-and-only-if |
| Friends.SendThenStatus | app/crud/friends.server.ts:5-39 | after a send the sender sees "pending_sent" and neither side sees "friends" |
| Friends.AcceptThenStatus | app/crud/friends.server.ts:41-77 | after an accept both sides are friends and the request is in neither pending list |
| Friends.RemoveIdempotent | app/crud/friends.server.ts:98-123 | removal is idempotent and leaves neither side listing the other |
| Friends.OperationsPreserveInvariants | app/crud/friends.server.ts:5-123 | every operation keeps friendship rows paired and request ids fresh |
| Friends.RejectOnlyOwnRequest | app/crud/friends.server.ts:79-91 | after a reject the request is not pending for the caller, other requests and friendships are untouched |
| FriendAdd.ErrorResponse | app/routes/friend.add.ts:52-72 | the two known send errors map to 400 with their message, anything else to 500 with the generic message |
| FriendAdd.Action | app/routes/friend.add.ts:11-74 | redirect when not signed in; 400 before any lookup on a bad email; a throwing lookup answered like a thrown send error (400 for the two known messages, otherwise the generic 500); 404 for an unknown user; 400 and no send for oneself; 200 `{success: true}` only after a successful send |
| FriendAdd.AddFriendEffect | app/routes/friend.add.ts:36-51 | against a database, 200 exactly when the target exists, is not the caller and the send succeeds; then the request is stored, otherwise the database is unchanged |
| FriendAdd.SecondRequestRefused | app/routes/friend.add.ts:53-60 | a repeated request is answered 400 "Friend request already sent" |
| EditableText.Init | app/components/EditableText.tsx:16-17 | starts in display mode with the edit value equal to the prop |
| EditableText.Submit | app/components/EditableText.tsx:33-38 | submits the edit value if and only if it differs from the prop, and always leaves editing |
| EditableText.Step | app/components/EditableText.tsx:29-69 | a submission only happens on leaving editing mode and differs from the prop; only a new prop changes the prop |
| EditableText.ClickEdits | app/components/EditableText.tsx:69 | clicking the displayed text enters editing mode |
| EditableText.EnterIsBlur | app/components/EditableText.tsx:40-51 | Enter and blur have the same effect, which is a submit |
| EditableText.EscapeRestores | app/components/EditableText.tsx:43-46 | Escape restores the edit value, leaves editing and does not submit |
| EditableText.PropAndTyping | app/components/EditableText.tsx:29-31 | a new prop resets the edit value; typing replaces it |
| EditableText.SubmissionsBoundedByClicks | app/components/EditableText.tsx:33-51 | there are never more submissions than edit sessions |
| EditableText.RunAppend | app/components/EditableText.tsx:33-51 | running two event sequences one after the other equals running their concatenation, with the submissions in order |
| EditableText.EditSession | app/components/EditableText.tsx:33-59 | click, type, Enter submits the typed text only if new; with Escape nothing is submitted and the old value comes back |
| IframeLogs.Selector | app/hooks/use-iframe-logs.ts:8-11 | a selector exists exactly when both ids are non-empty |
| IframeLogs.HandleMessage | app/hooks/use-iframe-logs.ts:29-49 | a captured console call appends exactly one formatted entry, anything else changes nothing |
| IframeLogs.Captured | app/hooks/use-iframe-logs.ts:29-35 | exactly calls of the five console methods (lower-case, as `includes` compares) with an argument array are captured, and each is logged under LOG, WARN, ERROR, INFO or DEBUG |
| IframeLogs.Entry | app/hooks/use-iframe-logs.ts:35-49 | the entry starts with the upper-cased method in brackets and a space, and ends with the text of the last argument (with no arguments it is just the prefix) |
| IframeLogs.Step | app/hooks/use-iframe-logs.ts:14-67 | new ids empty the log and re-run the listener effect, which keeps a removable listener only when the iframe is found; a message is handled by every listener still installed, a captured call appended once per listener |
| IframeLogs.Deliver | app/hooks/use-iframe-logs.ts:49-54 | a captured call reaching `n` live handlers is appended `n` times to the one log; anything else leaves it alone |
| IframeLogs.Rerun | app/hooks/use-iframe-logs.ts:14-22 | new ids empty the log and add at most one listener; the new one is removable exactly when there is a selector and its cleanup is returned |
| IframeLogs.NoLeakMessage | app/hooks/use-iframe-logs.ts:18-22 | while no listener has leaked, a message is ignored without a selector and logged exactly once with one |
| IframeLogs.NoLeakRun | app/hooks/use-iframe-logs.ts:54-67 | as written, a hook whose renders all find the iframe never leaks a listener |
| IframeLogs.MissingIframeLeaks | app/hooks/use-iframe-logs.ts:54-67 | as written, a missing iframe leaves an unremovable listener: after new ids with the iframe found one console call is logged twice, and after the selector is dropped it is still logged |
| IframeLogs.StepIntended | app/hooks/use-iframe-logs.ts:140-142 | with the cleanup returned whenever a listener was added, the new listener is removable exactly when there is a selector |
| IframeLogs.IntendedNeverLeaks | app/hooks/use-iframe-logs.ts:140-142 | with the cleanup always returned, no event leaks a listener, whether or not the iframe is found |
| IframeLogs.LogOnlyAppends | app/hooks/use-iframe-logs.ts:49 | while the ids stay the same and no listener has leaked, the log only grows by appending, at most one entry per event |
| IframeLogs.Prefixes | app/hooks/use-iframe-logs.ts:35-49 | the prefixes are LOG, WARN, ERROR, INFO, DEBUG, and a formatted entry example |
| IframeLogs.IndexOf | app/hooks/use-iframe-logs.ts:123 | finds the first `>` at or after a position |
| IframeLogs.FindTagFrom | app/hooks/use-iframe-logs.ts:122-125 | finds the leftmost `<body…>` match, ending at its first `>` |
| IframeLogs.InsertionPoint | app/hooks/use-iframe-logs.ts:122-135 | the script goes right after the first body tag, or at the end when there is none |
| IframeLogs.Inject | app/hooks/use-iframe-logs.ts:122-135 | the new document is the old one with the script inserted at the insertion point |
| IframeLogs.RemovingScriptRestores | app/hooks/use-iframe-logs.ts:122-135 | cutting the script out of the new document gives the original back |
| IframeLogs.SetUp | app/hooks/use-iframe-logs.ts:20-71 | no selector, no listener; otherwise a listener, and when the iframe exists a rewritten srcDoc and a returned cleanup; a listener without a cleanup happens exactly when the iframe is missing |
| IframeLogs.InjectExamples | app/hooks/use-iframe-logs.ts:122-135 | an upper-case body tag gets the script right after it; a document without one gets it at the end |

## Findings

| source | as written | input that shows it | evidently intended | confidence | as-written member | corrected member |
|---|---|---|---|---|---|---|
| app/lib/eventstream.ts:34-35 | over the bound, `[...events.shift(), event]` spreads the removed first element | history `["ab", "c"]`, bound 1, payload `"d"` gives `["a", "b", "d"]`; object payloads throw a TypeError | drop the oldest entry and append, giving `["c", "d"]` | not executed; high | EventStream.AddNewEvent | EventStream.AddNewEventIntended |
| app/hooks/use-iframe-logs.ts:54-67 | the message listener is added before the iframe lookup, and a missing iframe returns without the cleanup, so that listener is never removed | ids `g`/`1` rendered with no iframe, then ids `g`/`2` with the iframe, then `console.log("x")`: the log holds `"[LOG] x"` twice | add the listener only once the iframe is found, or return the cleanup on the early return too, so at most one listener is live | not executed; high | IframeLogs.MissingIframeLeaks | IframeLogs.IntendedNeverLeaks |

The handler step `EventStream.Step` keeps the written rule, because that is
what the application does (the home page hits it on its second message).
The corrected rule is proved to keep exactly the latest `max + 1` payloads
(`EventStream.IntendedKeepsLatest`).

Likewise `IframeLogs.Step` and `IframeLogs.Run` keep the listener leak as
written; the guarantees that hold only without a leak (`NoLeakMessage`,
`LogOnlyAppends`) require `IframeLogs.NoLeak`, which `NoLeakRun` shows holds
whenever every render finds the iframe, and which `IntendedNeverLeaks` shows
the corrected step preserves unconditionally.

## Left out

- The event-source transport, reconnection, server-sent-event framing and React effect scheduling: the handler is a pure state step and the registry a map.
- The server loaders `app/routes/sse.ts` and `app/routes/sse.friends.ts`: timer-driven, and `sse.ts` sends random counts, not friend data.
- The deserializer, `JSON.stringify`/`String` of log arguments, zod's email check and `getUserByEmail`: parameters or abstract inputs.
- Date parsing: `createdAt` is an integer; invalid dates (a `NaN` comparator) are not modelled.
- JavaScript numbers are integers here; `NaN` (false-like) is not modelled, for payloads or for the session id.
- `request.formData()` failing and non-string form values: the email field is an optional string.
- The console-override script text: a parameter; its content (console wrappers posting messages) is not modelled.
- The final cleanup when the hook unmounts, and the render order of the two effects within one commit: a render is one step, and the log reset and listener swap happen together.
- React strict mode running a state updater twice (which would repeat the `shift()` on the same array).
- Focus and selection of the input when entering editing mode: DOM effects.
- A second blur event that the browser may fire when the input is removed after Enter or Escape: the model treats each event as a separate step and does not model unmounting.
- Clearing the prompt form (`formRef.current?.reset()` in `app/components/iterations-sidebar.tsx`) after a new iteration arrives: a DOM effect with no state of the sidebar behind it.
- Drizzle/D1 CRUD wrappers other than the friendship operations, password hashing, sessions and the login and signup routes.
- Diff.DiffText: the output is a list of changed lines, not a patch. It does not say at which index a `-`/`+` pair applies and it omits deleted trailing lines, so applying it to the old content cannot rebuild the new content in general (see `Diff.ChangedLineIndexLost` and `Diff.TailDeletionUnreported`); no such round trip is stated.
- Friends.Send, Friends.Accept: each operation is one atomic step. In the code, the two existence checks and the insert of `sendFriendRequest` (app/crud/friends.server.ts:11-38) are separate awaits without a transaction, and so are the lookup and the transaction of `acceptFriendRequest` (:47-59). Concurrent requests can interleave, for example two sends that both pass the checks and both insert a pending row; interleavings are not modelled.
- Friends.Valid: assumes request ids come from a counter that never hands out an id twice. The pending-requests table definition is not part of this model, so this is an assumption; the fresh-id clause of `Friends.Send` and the invariant rest on it.
- Friends.Reject: does not throw "Friend request not found", because whether the delete's result is ever false depends on the query library, which is not part of this model.
- Friends.Accept: inserting a friendship row that already exists is a no-op on a set; any uniqueness constraint of the real table is not part of this model.
- IframeLogs.UpperAscii: upper-cases ASCII letters only; it agrees with `toUpperCase` on the five accepted method names.
