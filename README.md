# Chat screen message engine, in Dafny

A model of the logic inside a React Native chat screen and its participant
directory. Rendering is not modelled.

The chat screen keeps these pieces of state:

- `allMessages`: every loaded message.
- `messages`: the window the view shows.
- `page` and `pageSize = 170`.
- `loadingMore` and `hasMore`: flags for infinite scroll.
- `inputText`: the text in the compose box.
- `showMentions` and `mentionQuery`: the state of the @-mention picker.

Four handlers change this state:

- the bulk load (`getAllMessages`);
- the 3-second poll of the latest messages (`fetchLatestMessages`);
- the page-in of older messages (`loadMoreMessages`), which finishes in a `setTimeout` callback;
- sending (`handleSend`).

For each rendered message, the screen also derives a reaction tally and
decides whether the message opens a group of messages by the same author.
The participant store fetches the directory once and looks participants up by
uuid.

Modules, one per concern:

- `ChatTypes` (chat_types.dfy): messages, reactions, participants, and `Fetch<T>`, the outcome of a request.
- `MessageOrder` (message_order.dfy): the stable newest-first sort that `Array.prototype.sort` performs with the `sentAt` comparator.
- `Paging` (paging.dfy): `slice` semantics, page offsets, the poll's uuid filter, and lemmas about the window and de-duplication.
- `MessageItem` (message_item.dfy): the reaction tally loop, the count badge and `isFirstOfGroup`.
- `Mentions` (mentions.dfy): `split(" ")`/`join(" ")`, the last word, ASCII `toLowerCase`, `includes`, the mention trigger, the candidate filter and the insertion of a mention.
- `ChatScreen` (chat_screen.dfy): the class `ChatState` with the handlers as methods.
- `ParticipantStore` (participant_store.dfy): the class `Store`.

Requests are not made by the model. Each handler takes the outcome of its
request as a `Fetch` parameter: either `Loaded(data)` or `Failed`. A failure
stands for anything the handler's `catch` absorbs.

### Questionable behaviour of the code

The model follows the code. The lemmas below show where the code does not
give what the screen needs. The screen needs:

- a full list that is newest first and has no repeated uuid;
- a window that is the newest pages of that list, in the same order.

The list is drawn `inverted` (src/screens/chat/index.js:378). Index 0 sits
at the bottom, so older pages belong after the newest messages.

- **The poll de-duplicates against the visible window, not the full list.**
  This is src/screens/chat/index.js:91.
  - The model runs the handler with the current state. Under that reading,
    `Paging.PollCanDuplicate` shows that a loaded message that is not
    visible occurs twice in `allMessages` if the feed re-delivers it.
  - `Paging.PollKeepsUnique` shows that no duplicate appears when every
    loaded uuid is visible.
  - The code as written behaves worse. The interval (lines 121-129) keeps
    the first render's `fetchLatestMessages`, in which `messages` and
    `allMessages` are both empty. Every feed entry then survives line 93.
    Lines 98-103 replace `allMessages` by the sorted feed alone, so the
    loaded history is dropped. Only the updater at lines 105-110 filters
    against the current window, and it keeps that window.
- **The page-in puts the older page in front of the window instead of
  after it.** This is src/screens/chat/index.js:149.
  - Index 0 of the inverted list is the newest message, so older pages
    belong at the end of the window.
  - `Paging.FirstPageInBreaksOrder` shows that after the first page-in the
    window is no longer newest first.
  - `ChatScreen.ChatState.LoadMoreFires` still keeps the window holding
    exactly the first `page` pages, as a multiset.
- **Sending puts the server's message at the head of `allMessages` without
  re-sorting.** A server timestamp older than the head leaves the list out
  of order. The window is re-based to page 1.
- **`getAllMessages` does not reset `page`.** It runs once, at mount
  (line 133). Were it to run after a page-in, it would show page 1 while
  the next page-in starts after the old page.
- **Nothing stops two polls from overlapping.**

## Model

| member | source | states |
|---|---|---|
| `MessageOrder.SortDesc` | src/screens/chat/index.js:45-46 | the result is newest first (`sentAt` never increases) and a permutation of the input |
| `MessageOrder.SortDescStable` | src/screens/chat/index.js:99-101 | for every timestamp, the messages sent at that time keep their input order (the sort is stable) |
| `MessageOrder.SortDescOfSorted` | src/screens/chat/index.js:99-101 | a list that is already newest first is returned unchanged |
| `MessageOrder.InsertSorted` | src/screens/chat/index.js:46 | inserting one message into a newest-first list keeps it newest first |
| `MessageOrder.SortDescKeepsUnique` | src/screens/chat/index.js:99-101 | sorting never creates two entries with the same uuid |
| `Paging.Slice` | src/screens/chat/index.js:144 | `slice(start, end)` has length `min(end, n) - start` (or 0), and entry k is entry `start + k` of the list |
| `Paging.SliceTiles` | src/screens/chat/index.js:141-144 | the slice `[0, a)` followed by the slice `[a, b)` is the slice `[0, b)` |
| `Paging.PageInCovers` | src/screens/chat/index.js:141-149 | if the window held the first `page` pages as a multiset, then the next page's slice plus the window holds the first `page + 1` pages |
| `Paging.FirstPageInBreaksOrder` | src/screens/chat/index.js:144-149 | if the list has more than one page and its newest message is strictly newer than the first message of page 1, then after the first page-in the window is not newest first |
| `Paging.Unseen` | src/screens/chat/index.js:91-95 | keeps exactly the feed entries whose uuid is not in the given set; never longer than the feed; a sub-multiset of it |
| `Paging.UnseenAppend` | src/screens/chat/index.js:93-95 | filtering a concatenation filters each part, so feed order is kept |
| `Paging.UnseenTwice` | src/screens/chat/index.js:105-110 | filtering the survivors a second time by the same uuids removes nothing |
| `Paging.MergedAll` | src/screens/chat/index.js:98-101 | the new full list is newest first and is a permutation of survivors ++ the old full list |
| `Paging.PollCanDuplicate` | src/screens/chat/index.js:91-103 | a loaded message whose uuid is not visible, re-delivered by the feed, occurs at least twice in the new full list |
| `Paging.PollKeepsUnique` | src/screens/chat/index.js:91-103 | when every loaded uuid is visible, a full list and a feed without repeated uuids give a full list without repeated uuids |
| `MessageItem.FirstSeen` | src/screens/chat/index.js:165-173 | the tally keys are pairwise distinct and are exactly the reaction values |
| `MessageItem.FirstSeenOrder` | src/screens/chat/index.js:165-173 | the tally keys appear in the order of each value's first occurrence |
| `MessageItem.TallyReactions` | src/screens/chat/index.js:165-173 | the `forEach` loop produces the keys in first-seen order; each value's count is the number of reactions carrying that value |
| `MessageItem.TallyTotal` | src/screens/chat/index.js:165-173 | the counts of the tally add up to the number of reactions |
| `MessageItem.CountShownIffRepeated` | src/screens/chat/index.js:268 | the count badge shows exactly when at least two reactions carry the value |
| `MessageItem.GroupStart` | src/screens/chat/index.js:181-182 | every message lies in a run of messages by its author, and the run starts at the last index at or before it where `isFirstOfGroup` holds |
| `Mentions.JoinSplit` | src/screens/chat/index.js:397-400 | joining the pieces of `split(" ")` with single spaces gives back the text |
| `Mentions.SplitJoin` | src/screens/chat/index.js:397-400 | splitting space-free words joined with single spaces gives back the words |
| `Mentions.SplitCount` | src/screens/chat/index.js:424 | `split(" ")` yields one more piece than the text has spaces |
| `Mentions.LastWord` | src/screens/chat/index.js:424 | the last word is the longest space-free suffix of the text: it has no space and is a suffix, and a space comes right before it unless it is the whole text |
| `Mentions.MentionTrigger` | src/screens/chat/index.js:424-431 | the picker opens exactly when some "@" starts the last word; the query is then the lower-cased text after that "@"; otherwise the query is empty |
| `Mentions.Candidates` | src/screens/chat/index.js:390-392 | a participant is a candidate exactly when its lower-cased name contains the query; there are never more candidates than participants |
| `Mentions.CandidatesAppend` | src/screens/chat/index.js:390-392 | the filter keeps directory order |
| `Mentions.EmptyQueryKeepsAll` | src/screens/chat/index.js:390-392 | an empty query keeps every participant, in directory order |
| `Mentions.MentionReplacesLastWord` | src/screens/chat/index.js:397-400 | inserting a mention replaces only the last word of the text, by "@" and the name, followed by a space |
| `ChatTypes.Uuids` | src/screens/chat/index.js:91 | `new Set(messages.map((msg) => msg.uuid))`: a uuid is in the set exactly when some message carries it |
| `MessageItem.IsFirstOfGroup` | src/screens/chat/index.js:181-182 | the expression as written; `MessageItem.GroupStart` characterizes the runs it delimits |
| `MessageItem.ShowsCount` | src/screens/chat/index.js:268 | `count > 1`; `MessageItem.CountShownIffRepeated` characterizes it on the tally |
| `Mentions.Split` | src/screens/chat/index.js:397 | `split(" ")` gives at least one piece, and no piece holds a space; `Mentions.JoinSplit`, `Mentions.SplitJoin` and `Mentions.SplitCount` pin it down |
| `Mentions.Join` | src/screens/chat/index.js:400 | `join(" ")` puts one space between consecutive words; `Mentions.JoinSplit` and `Mentions.SplitJoin` show it inverts `Split` |
| `Mentions.Lower` | src/screens/chat/index.js:426 | ASCII `toLowerCase`: the same length, and each character is lower-cased one by one |
| `Mentions.Contains` | src/screens/chat/index.js:391 | `includes`: the query occurs at some offset of the text; `Mentions.EmptyQueryKeepsAll` uses that the empty query always occurs |
| `Mentions.InsertMention` | src/screens/chat/index.js:397-400 | the `pop`, push, `join` and `+ " "` rewrite of the text; `Mentions.MentionReplacesLastWord` characterizes it |
| `ChatScreen.Blank` | src/screens/chat/index.js:302 | `inputText.trim() === ""`: every character is whitespace; `ChatScreen.ChatState.HandleSend` changes nothing on such input |
| `ChatScreen.ChatState.constructor` | src/screens/chat/index.js:20-31 | initial state: empty lists, page 1, not loading, `hasMore` set, empty input and query, picker closed |
| `ChatScreen.ChatState.GetAllMessages` | src/screens/chat/index.js:39-63 | a failure changes nothing. On success the full list is the sorted response and the window is its first `min(170, n)` entries. `hasMore` is cleared when n ≤ 170 and otherwise unchanged. On page 1 the window covers the loaded pages |
| `ChatScreen.ChatState.PollLatest` | src/screens/chat/index.js:86-116 | a failure, or no feed entry outside the visible uuids, changes nothing. Otherwise the full list is the sorted merge and the window is the survivors, in feed order, followed by the old window |
| `ChatScreen.ChatState.LoadMoreMessages` | src/screens/chat/index.js:136-162 | nothing changes while loading or when `hasMore` is false. Otherwise a non-empty slice arms the callback and sets `loadingMore`, and an empty slice clears both flags |
| `ChatScreen.ChatState.LoadMoreFires` | src/screens/chat/index.js:147-157 | the window becomes slice ++ window and `page` increases by one. `hasMore` is cleared when `endIndex` reaches the list length. `loadingMore` ends false. A current callback keeps the window covering the loaded pages |
| `ChatScreen.ChatState.HandleSend` | src/screens/chat/index.js:301-331 | blank input or a failed post changes nothing, including the input. On success: full list = new message :: old list, window = its first 170 entries, page 1, `hasMore` = (length > 170), input cleared |
| `ChatScreen.ChatState.OnChangeText` | src/screens/chat/index.js:421-432 | stores the text and sets the picker state from its last word |
| `ChatScreen.ChatState.PickMention` | src/screens/chat/index.js:396-403 | the input becomes the text with its last word replaced by the mention, and the picker closes |
| `ParticipantStore.FindIndex` | src/store/participantStore/index.js:36 | the index of the first participant with that uuid, or none exactly when no participant has it |
| `ParticipantStore.Store.constructor` | src/store/participantStore/index.js:9-10 | the store starts with no participants and `isFetched` false |
| `ParticipantStore.Store.FetchParticipants` | src/store/participantStore/index.js:12-32 | with `isFetched` set, nothing changes. Otherwise a success stores the response and sets `isFetched`, and a failure changes nothing |
| `ParticipantStore.Store.GetParticipantByUUID` | src/store/participantStore/index.js:34-37 | returns the first participant in list order with that uuid, and nothing exactly when no participant has it |
| `ParticipantStore.RepeatedFetches` | src/store/participantStore/index.js:13-27 | after one successful fetch, any number of further fetches leaves the store as it was |

## Left out

- Rendering is not modelled: JSX, styles, modals, the image viewer, `FlatList`, the keyboard, and the reactions sheet.
- The transport is not modelled: axios, the API client, and the participant endpoint's URL. Responses are `Fetch` parameters. A body that `sort` or `filter` cannot handle is a `Failed` outcome.
- Timers are not modelled. `setInterval` becomes repeated calls of `PollLatest`. `clearInterval` at unmount is not modelled.
- The `setTimeout` delay is only the split between `LoadMoreMessages` and `LoadMoreFires`. The time itself is not modelled.
- Async interleaving is not modelled. Each handler runs atomically with the state current when its request completes.
- The interval's stale closure is not modelled. In the code, the interval sees the first render's `messages` and `allMessages`; the model passes the current state.
- React's batching is not modelled. State updates apply at once, in program order, and the last write wins.
- The overlap of the two `fetchParticipants` calls made at start-up is not modelled.
- ChatScreen.ChatState.GetAllMessages: does not model the random `edited` stamp (`Math.random() < 0.3`), which is nondeterministic. Messages keep the `edited` flag they arrive with.
- `sentAt` is an integer. Date parsing is not modelled, nor an invalid date, which turns the comparator into NaN. `toLocaleTimeString` is not modelled.
- Mentions.Lower: lower-cases ASCII letters only. Unicode case mapping is not modelled.
- ChatScreen.Blank: treats only ASCII whitespace as removable. `trim` also removes the other Unicode spaces.
- MessageItem.TallyReactions: does not model how a plain JavaScript object treats some keys. `reactionCounts` at src/screens/chat/index.js:165 is such an object. The model keeps first-seen order and counts every value as its own key. It leaves out three behaviours:
  - Integer-like keys (such as "1") are listed first, in numeric order.
  - A value naming an `Object.prototype` member (such as "toString") starts from the inherited property. The entry becomes a string, not a count, so `count > 1` at line 268 is false and no badge shows.
  - A value `"__proto__"` never becomes a key.
- `handleReact` (src/screens/chat/index.js:333-349) is not modelled. It treats `reactions` as a map keyed by emoji, while the tally treats it as an array. It also matches `msg.id` against a value taken from `uuid`.
- `renderMessageItem` returns nothing when the author is not in the directory. This rendering decision is not modelled.
- The store's AsyncStorage persistence and rehydration are not modelled. This is I/O.
