# Chat view state and "last seen" labels, modelled in Dafny

This project models the client-side logic of a browser chat app. All storage, authentication and
realtime fan-out live in a hosted backend. What the repository itself decides is:

- how the chat view's state changes on each event: sending a message optimistically, then
  reconciling it or rolling it back; realtime message and roster inserts and updates; presence
  sync, join and leave; and the unread counters;
- which "last seen" label `formatLastSeen` picks for a timestamp.

The state of the view (`messages`, `users`, `receiver`, `newMessage`, `unreadCounts`,
`onlineUsers`) is the class `ChatView.ChatView`. Each handler is a method, and each network
completion is one atomic step whose result (saved row, error, fetched data) is a parameter. The
signed-in user's id is the parameter `me`. Each method names in its `modifies` clause the fields
it may change (`this`messages`, ...), so every other field is unchanged by construction. Its
`ensures` give the new value of each changed field. Most of these are functions of the old state
about which the lemmas of `Thread`, `Roster` and `Counters` prove the intended properties: order
kept, entries replaced in place, idempotence, rollback restoring the thread, and other keys
untouched. The object invariant `Valid()` (presence maps only to `true`, no unread counter is
negative) is preserved by every handler. For the aggregate load it holds when the loaded rows are
non-negative.

`formatLastSeen` becomes `LastSeen.FormatLastSeen`. It takes the timestamp (absent or a string),
a parser (`None` = unparsable), the current time and the start of yesterday, all in epoch
milliseconds, and returns a `Label` instead of a rendered string. `Math.round(x / d)` is
`floor(x/d + 1/2)`, written `(2x + d) / (2d)` with Dafny's Euclidean division. That matches
JavaScript for negative (future) differences too.

Modules: `Wrappers` (Option), `Text` (JavaScript `trim`, `replace(' ', 'T')`), `Records` (row
types), `Thread`, `Roster`, `Counters`, `Presence`, `ChatView`, `LastSeen`.

Three behaviours of the code that the model makes explicit:

- A `users` INSERT is appended with no duplicate check: every row whose id is not the
  session's goes to the end of the roster (`OnUserInsert`).
- An echo of one's own message that arrives before the write's response is appended, because the
  realtime check compares against the placeholder id; the reconcile then turns the placeholder
  into a second copy (`Thread.EchoBeforeResponseDuplicates`). So ids in `messages` are not
  claimed to be unique.
- A message UPDATE is merged without any check of the open conversation. The model shows that
  this can only rewrite entries that already carry the pushed id. It never adds or removes
  entries, and it keeps every entry's id (`Thread.MergeById`).

## Model

| member | source | states |
|---|---|---|
| `Text.Trim` | src/App.jsx:40-42 | the trimmed text neither starts nor ends with JavaScript whitespace and is no longer than the input |
| `Text.TrimIsSlice` | src/App.jsx:42 | the trimmed text is a contiguous slice of the input, and everything cut before and after it is whitespace |
| `Text.TrimEmptyIff` | src/App.jsx:40 | the trimmed text is empty exactly when every character of the input is whitespace (the send guard) |
| `Text.TrimIdempotent` | src/App.jsx:42 | trimming twice equals trimming once (text restored by a rollback trims to the same content) |
| `Text.IndexOfSpace` | src/utils/formatLastSeen.js:5 | the index found holds a space and no earlier index does, or there is no space at all |
| `Text.ReplaceFirstSpace` | src/utils/formatLastSeen.js:5 | same length; only the first space is changed, to 'T'; every other character is kept |
| `Text.ReplaceFirstSpaceKeepsLaterSpaces` | src/utils/formatLastSeen.js:5 | of the spaces in the string, the first becomes 'T' and every later one is still a space |
| `Thread.HasId` | src/App.jsx:290 | true exactly when some entry carries the id |
| `Thread.AppendUnlessPresent` | src/App.jsx:289-291 | existing entries are kept in order; `m` is appended at the end exactly when its id was absent; afterwards the id is present |
| `Thread.AppendUnlessPresentIdempotent` | src/App.jsx:289-291 | delivering the same insert twice equals delivering it once |
| `Thread.ReplaceId` | src/App.jsx:74-76 | same length; each entry with the placeholder id becomes the saved row at its own position; all others are unchanged |
| `Thread.RemoveId` | src/App.jsx:82 | exactly the entries without the id remain; none with the id is left |
| `Thread.RemoveIdConcat` | src/App.jsx:82 | removal distributes over concatenation, so the order of the remaining entries is preserved |
| `Thread.RemoveIdAbsent` | src/App.jsx:82 | removing an id no entry carries leaves the thread unchanged |
| `Thread.RollbackRestoresThread` | src/App.jsx:56-83 | with a fresh placeholder id, rolling back right after the optimistic append restores the thread the send started from |
| `Thread.ReconcileAfterSend` | src/App.jsx:56-76 | with a fresh placeholder id, reconciling right after the append yields the old thread followed by the saved row |
| `Thread.ReplaceIdClearsPlaceholder` | src/App.jsx:74-76 | after a reconcile whose saved row has another id, no entry carries the placeholder id |
| `Thread.EchoBeforeResponseDuplicates` | src/App.jsx:289-291 | if the realtime echo of one's own message precedes the response, append-then-reconcile leaves the saved row twice |
| `Thread.Merge` | src/App.jsx:319 | the result takes the pushed id; each column the patch carries takes the patch's value, and each column it omits keeps the entry's |
| `Thread.MergeProperties` | src/App.jsx:319 | merging a full-row payload yields that row whatever the entry held; merging a patch twice equals merging it once |
| `Thread.MergeById` | src/App.jsx:317-321 | same length and ids; entries with the pushed id are merged in place and all others are unchanged; no conversation check |
| `Thread.MergeByIdIdempotent` | src/App.jsx:317-321 | replaying a message update changes nothing further |
| `Roster.ReplaceUser` | src/App.jsx:264-268 | same length; every entry with the updated id becomes the pushed row at its own position; all others are unchanged |
| `Roster.ReplaceUserIdempotent` | src/App.jsx:264-268 | replaying a roster update changes nothing further, and every entry with that id is the pushed row |
| `Roster.RefreshReceiver` | src/App.jsx:270-271 | the open receiver becomes the pushed row exactly when its id matches; otherwise it is unchanged, and "no receiver" stays "no receiver" |
| `Roster.RefreshReceiverStaysInRoster` | src/App.jsx:264-271 | a receiver taken from the roster is, after the refresh, still an entry of the updated roster: the two updates agree |
| `Counters.CountOf` | src/App.jsx:307 | a missing counter reads as 0; a present one reads as its value |
| `Counters.ClearUnread` | src/App.jsx:178 | the counter for the id becomes 0; every other key keeps its value; no key is lost |
| `Counters.IncrementUnread` | src/App.jsx:305-308 | the sender's counter becomes its old value (0 if absent) plus 1; every other key keeps its value |
| `Counters.UnreadAfterInsert` | src/App.jsx:294-309 | when `me` is the recipient: counter 0 if the chat is open, previous-or-0 plus 1 if not; when `me` is not the recipient: no change; other keys never change |
| `Counters.FoldCounts` | src/App.jsx:221-224 | after the fold, the last row's sender is mapped to the last row's count |
| `Counters.FoldCountsKeys` | src/App.jsx:221-224 | the folded map has exactly the rows' senders as keys |
| `Counters.FoldCountsLastWins` | src/App.jsx:221-224 | a sender's entry is the count of the last row naming that sender |
| `Counters.CountsFromRows` | src/App.jsx:221-224 | the accumulator loop computes the left fold of the rows |
| `Presence.OnlineMapOf` | src/App.jsx:126-129 | the loop maps exactly the presence-state keys, each to true |
| `ChatView.IsForOpenChat` | src/App.jsx:281-285 | a message belongs to the open chat exactly when a receiver is open and the message's two endpoints are, as an unordered pair, `me` and that receiver |
| `ChatView.Optimistic` | src/App.jsx:46-54 | the optimistic row carries the placeholder id, the trimmed text, the given creation time, `me` as sender and the receiver as recipient, and is unread with no read time |
| `ChatView.ChatView.constructor` | src/App.jsx:8-14 | the initial state: empty lists and maps, no receiver, empty composer |
| `ChatView.ChatView.SetNewMessage` | src/App.jsx:462 | the composer holds the typed text; nothing else changes |
| `ChatView.ChatView.SelectReceiver` | src/App.jsx:353 | the clicked user becomes the open receiver; nothing else changes |
| `ChatView.ChatView.Send` | src/App.jsx:38-59 | blank text or no receiver: nothing changes and nothing is pending; otherwise one optimistic row (id `temp-`+token, trimmed content, unread, no read time) is appended after the unchanged entries and the composer is cleared |
| `ChatView.ChatView.Reconcile` | src/App.jsx:61-87 | a saved row without error replaces the placeholder in place; an error removes the placeholder and restores the trimmed text; no row, or a throw, changes nothing |
| `ChatView.ChatView.ConversationLoaded` | src/App.jsx:157-168 | a successful fetch replaces the thread (null data means empty); an error leaves it as it was |
| `ChatView.ChatView.UsersLoaded` | src/App.jsx:213-217 | the roster becomes the fetched rows, or empty when the data is null |
| `ChatView.ChatView.UnreadCountsLoaded` | src/App.jsx:218-225 | the counters become exactly the folded aggregate rows, keyed by their senders, replacing the old map |
| `ChatView.ChatView.MarkConversationAsRead` | src/App.jsx:171-179 | the opened receiver's counter becomes 0; other counters are unchanged |
| `ChatView.ChatView.OnUserInsert` | src/App.jsx:255-258 | a row whose id differs from the session's is appended at the end (no duplicate check); the session's own row is ignored |
| `ChatView.ChatView.OnUserUpdate` | src/App.jsx:263-272 | roster entries with the id are replaced in place; the receiver is refreshed only when its id matches; a receiver that was a roster entry is still one afterwards |
| `ChatView.ChatView.OnMessageInsert` | src/App.jsx:277-310 | the thread gets a dedup-append only for the open conversation and is unchanged otherwise; the counters follow `UnreadAfterInsert` |
| `ChatView.ChatView.OnMessageUpdate` | src/App.jsx:315-322 | the pushed fields are merged into every thread entry with that id; no conversation check |
| `ChatView.ChatView.OnPresenceSync` | src/App.jsx:125-131 | the online map is rebuilt: exactly the presence-state keys, each mapped to true |
| `ChatView.ChatView.OnPresenceJoin` | src/App.jsx:132-134 | the joined key maps to true; all other keys are unchanged |
| `ChatView.ChatView.OnPresenceLeave` | src/App.jsx:135-142 | the departed key is deleted; all other keys are unchanged |
| `ChatView.SendThenFail` | src/App.jsx:38-87 | a send whose write fails leaves the thread exactly as before; the composer holds the trimmed text when a send was made, and is untouched when the guard stopped it; no other field changes |
| `ChatView.SendThenSave` | src/App.jsx:38-77 | a send whose write succeeds, with nothing in between, leaves the old thread plus the saved row and an empty composer; no other field changes, and the view's invariant is kept |
| `ChatView.InsertDeliveredTwice` | src/App.jsx:287-302 | the same insert for the open chat, delivered twice, leaves the thread and counters as one delivery does; no other field changes |
| `ChatView.UnreadThenOpen` | src/App.jsx:303-308 | a message to `me` from a user whose chat is closed bumps that counter by exactly 1; opening that chat then resets it to 0, other counters unchanged; the thread is unchanged, and only the thread, counters and receiver may change |
| `LastSeen.Classify` | src/utils/formatLastSeen.js:14-47 | a parsed date never yields "never" or "Invalid date"; "yesterday" only from the start of yesterday on, a days label or the absolute date only before it |
| `LastSeen.FormatLastSeen` | src/utils/formatLastSeen.js:1-53 | "never" exactly for an absent or empty timestamp; "Invalid date" exactly when the parser rejects the string with its first space replaced |
| `LastSeen.RoundDiv` | src/utils/formatLastSeen.js:14-17 | `Math.round(x / d)`: the nearest integer to x/d, with halves rounded up |
| `LastSeen.RoundDivMonotone` | src/utils/formatLastSeen.js:14-17 | rounding the quotient is monotone in the dividend |
| `LastSeen.UnitsMonotone` | src/utils/formatLastSeen.js:14-17 | rounded seconds, minutes, hours and days are each non-decreasing in the millisecond difference |
| `LastSeen.Thresholds` | src/utils/formatLastSeen.js:25-47 | each rounded threshold restated on milliseconds: under 10 s means under 9 500 ms, under 60 m means under 3 569 500 ms, under 24 h means under 84 569 500 ms, under 7 d means under 559 769 500 ms |
| `LastSeen.ClassifyByThresholds` | src/utils/formatLastSeen.js:25-53 | each label holds exactly when its millisecond range holds (yesterday and days also depending on start-of-yesterday); so exactly one label is produced for each input |
| `LastSeen.FutureIsJustNow` | src/utils/formatLastSeen.js:25-27 | every timestamp at or after "now" is "just now" |
| `LastSeen.LabelPayloads` | src/utils/formatLastSeen.js:28-47 | minutes carry 0..59 (0 exactly for rounded seconds 10..29); hours carry 1..23; days carry 1..6 and only before start-of-yesterday |
| `LastSeen.HoursIgnoreDayBoundary` | src/utils/formatLastSeen.js:31-43 | an age under the rounded 24 hours gets an hours label whatever the start of yesterday is |

## Left out

- Backend calls: the upserts and updates (src/App.jsx:22-36, 172-177, 295-298); the selects, the `get_unread_counts` procedure, and channel subscribe/track/remove. Their results are parameters (`WriteOutcome`, `FetchResult`, the row sequences, the presence keys).
- The `last_seen` write on a presence leave (src/App.jsx:136) is a backend call only; the model keeps the map update.
- Async interleaving: each completion is one atomic step. The message insert handler awaits a server update between appending and clearing the counter; the model takes both as one step.
- The session and its lifecycle (src/App.jsx:106-116, the whole auth view): the session's user id is the parameter `me`.
- `receiverRef` timing (src/App.jsx:101-103): handlers read the current `receiver`.
- When the selection effect runs: the model offers its completions (`ConversationLoaded`, `MarkConversationAsRead`) as separate steps. It does not model React re-running the effect when `receiver` changes.
- Browser APIs: the `chat_with` query parameter and history (src/App.jsx:182-184, 230-247), scrolling (96-98), console logging, and the JSX rendering (334-482), including the "Sent"/"Read" annotation.
- Placeholder ids: `crypto.randomUUID`/`Math.random` become a caller-supplied `token`; the id is `temp-` + token. The optimistic row's `created_at` is a parameter as well.
- Clock, date parsing and locale formatting in `formatLastSeen`: `new Date()`, the parser, `toLocaleTimeString`/`toLocaleDateString` and the local-midnight arithmetic are inputs (`nowMs`, `parse`, `startOfYesterdayMs`). `Yesterday` and `Absolute` carry no rendered time or date.
- Floating point: the integer rounding cascade equals JavaScript's double arithmetic for differences below 2^53 ms, which covers every valid Date.
- `LastSeen.FormatLastSeen`: only an absent value or the empty string are modelled as falsy timestamps; other falsy non-string values are not.
- `ChatView.ChatView.ConversationLoaded`: the `loadMessages` select (src/App.jsx:193-208) omits `is_read`; `Message.isRead` is a `bool`, so a missing `is_read` is read as `false`. Every reader in the source treats the missing column as falsy, so the behaviour is the same.
- `Text.Trim`: works on Unicode scalar values rather than UTF-16 code units. Every whitespace code point `trim` strips is a single unit, so the result is the same.
- Uniqueness of ids in `messages` and `users` is not claimed: the code does not guarantee it (see `Thread.EchoBeforeResponseDuplicates` and `OnUserInsert`).
