# Chat client state and branch-list selection, modelled in Dafny

This project models two pieces of browser-side logic from Fossil's web UI.

**The chat page (`src/chat.js`).** The `Chat` object keeps its state between
events. `ChatClient` models it as a class holding:

- the message rows between the inject point and the history toolbar, as an
  ordered sequence;
- the highest and lowest message ids seen so far (`mxMsg`, `mnMsg`);
- the total message count and the count of changes since the page was hidden;
- the page title;
- the in-flight request counter and the controls disabled while requests are
  in flight (`disableDuringAjax`);
- whether all history has been loaded.

Its methods are `ajaxStart`/`ajaxEnd`/`enableAjaxComponents`,
`injectMessageElem`, `deleteMessageElem`, `processPost` and `newcontent`,
the `visibilitychange` listener, `loadOldMessages` with its `finally` block,
and one `poll`. Each fetch reply is an input: `Some(records)` when the
reply's `msgs` were read, `None` when the request failed. The pure parts are
separate modules:

- `ChatAjax`: the counter gate and the rule for when all history is loaded.
- `ChatFeed`: the effect of one record and of a batch on the rows and bounds,
  as functions.
- `ChatFormat`: `pad`, `localTimeString` and the two-digit minute trick.
- `JsString`: the JavaScript string operations these use, namely number to
  string, `slice`, `substr`, `split` and `join`.

**The branch list page (`src/fossil.page.brlist.js`).** The set of selected
branches lives in the "Timeline" link's href, after a fixed prefix, as the
tags joined with `|`. `BranchListPage` models the page:

- its boxes;
- the link's href, text and `selected` class;
- each row's `selected` class.

Its two handlers are the `load` handler and `onChange`. `onChange` removes a
tag with a backward loop that splices, as the page does. Its result is stated
through `NextSelection`. The lemmas show that, for tags that are non-empty,
hold no `|` and that the browser's URL serialiser leaves unchanged, what the
handler writes is what it reads back at the next change.

### Behaviour kept exactly as written

- **A failed history request can finish history loading.** When a history
  request fails, `gotMessages` stays `false`. In JavaScript `false < n` holds
  for `n > 0`, so the request still counts as having loaded all history
  (`ChatAjax.HistoryDone`). The fourth clause of the rule needs `n < 0`,
  which the first clause already covers, so that clause never decides
  anything.
- **A zero id resets `mnMsg`.** `!Chat.mnMsg` is also true when `mnMsg` is
  0, so a record with id 0 sets the mark and the next record replaces it,
  even with a larger id (`ChatFeed.ZeroIdResetsLowWaterMark`). With non-zero
  ids, `mnMsg` only goes down (`ChatFeed.PostAllMin`).
- **Deleting id 0.** `deleteMessageElem(0)` reports true when a row with id 0
  exists, but removes nothing, because of `e && id`.
- **A hidden page with an empty batch.** The title is still rewritten,
  possibly to "(0) …".
- **A single empty tag is lost.** A branch selection consisting of one empty
  tag reads back as an empty selection (`BranchList.ParseJoinSelection`).
- **The load handler sets the label only from two boxes on.** It sets the
  label and the `selected` class only when at least two boxes start checked.
  With exactly one it rewrites only the href. `onChange` always rewrites
  all three, including "View 1 branches" and "View 0 branches".

## Model

| member | source | states |
|---|---|---|
| JsString.NatToString | src/chat.js:270 | the decimal text of a number is non-empty, all digits, one character exactly below 10, with no leading zero |
| JsString.NatToStringRoundTrip | src/chat.js:270 | the digits of `''+x` read back as `x` |
| JsString.NatToStringInjective | src/chat.js:270 | different numbers have different decimal text |
| JsString.Slice | src/chat.js:386 | `slice(start, end)` clamps to the string: the slice when in range, the tail when `end` is past it, `""` when empty |
| JsString.Substr | src/fossil.page.brlist.js:24 | `substr(start)` is the suffix after `start`, and `""` when `start` is past the end |
| JsString.Split | src/fossil.page.brlist.js:25 | `split` gives at least one piece and no piece holds the separator |
| JsString.Join | src/fossil.page.brlist.js:41 | `join(sep)`: the parts with the separator between them; JoinSplit and SplitJoin make it the inverse of `split` |
| JsString.JoinStartsWithFirst | src/fossil.page.brlist.js:41 | a join starts with its first part |
| JsString.JoinSplit | src/fossil.page.brlist.js:25-41 | joining what `split` gave restores any string |
| JsString.SplitJoin | src/fossil.page.brlist.js:25-41 | splitting a join of parts without the separator restores the parts |
| ChatFormat.Pad | src/chat.js:270 | `pad` gives at least two digits, exactly two below 100, and the plain text from 10 on |
| ChatFormat.PadValue | src/chat.js:270 | the padded digits read back as the number |
| ChatFormat.LocalTimeString | src/chat.js:268-279 | "Y-MM-DD hh:mm:ss" from the Date fields, the month plus one; its layout and field values are stated by LocalTimeStringLayout and LocalTimeStringFields |
| ChatFormat.LocalTimeStringLayout | src/chat.js:268-279 | `localTimeString` is the year, then month (1-based), day, hours, minutes and seconds as `pad`ded fields of two digits, with '-', ' ' and ':' at fixed offsets after the year |
| ChatFormat.LocalTimeStringFields | src/chat.js:268-279 | each field of `localTimeString` reads back as the value it came from, the month counted from 1 |
| ChatFormat.TwoDigitMinute | src/chat.js:386 | `(min+100).toString().slice(1,3)`; TwoDigitMinuteIsPad shows it equals `pad(min)` below 100 |
| ChatFormat.TwoDigitMinuteIsPad | src/chat.js:386 | `(min+100).toString().slice(1,3)` is `pad(min)`: two digits whose value is the minute |
| ChatFeed.LegendMinute | src/chat.js:381-387 | a row's legend is sender, " @ ", hours, ":" and the two-digit minute when local time is known |
| ChatFeed.LegendUtc | src/chat.js:388-391 | without a local time, the legend is sender, " @ " and characters 11 to 15 of `mtime` |
| ChatFeed.Legend | src/chat.js:381-391 | the legend text: sender, " @ ", then local `h:mm` when the host Date works, else the UTC slice of `mtime`; LegendMinute and LegendUtc state each branch |
| ChatFeed.RowOf | src/chat.js:366-371 | the `message-row` a record becomes: its `data-msgid`, `data-xfrom`, `data-timestamp` and legend |
| ChatAjax.SetEnabled | src/chat.js:27-30 | enabling clears exactly the listed controls from the disabled set, disabling adds exactly them, other controls unchanged |
| ChatAjax.StartGate | src/chat.js:43-47 | `ajaxStart` on the gate: counter plus one, list disabled iff the new counter is 1; GateTransitions and BalancedPair state its behaviour |
| ChatAjax.EndGate | src/chat.js:53-57 | `ajaxEnd` on the gate: counter minus one, list enabled iff the new counter is 0; GateTransitions and BalancedPair state its behaviour |
| ChatAjax.GateTransitions | src/chat.js:43-57 | `ajaxStart` counts up and changes the disabled set only on 0→1, where it disables the list; `ajaxEnd` counts down and changes it only on 1→0, where it enables the list |
| ChatAjax.BalancedPair | src/chat.js:43-57 | a start followed by an end restores the counter; with other requests in flight it restores the whole gate |
| ChatAjax.RunKeepsGating | src/chat.js:31-57 | over any sequence of starts and ends that never drops below zero, the counter moves by starts minus ends; the listed controls are disabled while it is positive and enabled at zero |
| ChatAjax.FirstRequestEstablishesGating | src/chat.js:495-509 | the first poll's start/end pair leaves the controls gated by the counter |
| ChatAjax.IndexOf | src/chat.js:473 | `indexOf` is the first position holding the control, or -1 when there is none |
| ChatAjax.IndexFrom | src/chat.js:473 | the search from a position finds the first later position holding the control, or -1 |
| ChatAjax.RemoveFirst | src/chat.js:473-474 | `splice(indexOf(c), 1)` shortens the list by one exactly when `c` is listed |
| ChatAjax.RemoveFirstCount | src/chat.js:473-474 | it removes one occurrence of `c`, when there is one, and keeps every other control as often as before |
| ChatAjax.RemoveFirstOnce | src/chat.js:473-474 | for a control listed at most once, it is absent afterwards and the other controls stay listed |
| ChatAjax.HistoryDone | src/chat.js:462-466 | all history is loaded exactly when n < 0, or n = 0 with an empty reply, or n > 0 with a failed request or fewer than n records |
| ChatFeed.Inject | src/chat.js:67-78 | a row goes first (at the top) or last (before the toolbar), with the other rows in order |
| ChatFeed.FindById | src/chat.js:91-93 | the first row with the id, or -1 when no row has it |
| ChatFeed.RemoveAt | src/chat.js:107-108 | removing a row keeps every other row, in order |
| ChatFeed.DeleteById | src/chat.js:99-112 | the rows after `deleteMessageElem(id)`: found by FindById, removed only when `e && id` holds |
| ChatFeed.DeleteByIdSpec | src/chat.js:99-112 | deleting removes exactly the first row with the id and keeps the others in order; with no such row, or id 0, the rows are unchanged |
| ChatFeed.RowsOf | src/chat.js:366-371 | a record's row carries its id, sender and time |
| ChatFeed.Post | src/chat.js:357-371 | the feed after `processPost(m, atEnd)`; PostRecord states its effect on each field |
| ChatFeed.PostAll | src/chat.js:424 | the feed after `jx.msgs.forEach(processPost)`, a fold of Post in batch order; PostAllCount, PostAllMax, PostAllMin, PostAllAtTop, PostAllAtEnd and NewestFirst state its effect |
| ChatFeed.PostRecord | src/chat.js:357-371 | one record is counted once and `mxMsg` becomes the larger of it and the id. A set `mnMsg` becomes the smaller of it and the id, an unset one the id. A deletion notice removes exactly the first row with that id, keeping the others in order, and leaves the rows alone when none has it; any other record injects its row |
| ChatFeed.PostAllCount | src/chat.js:358 | every record of a batch, deletion notices included, adds exactly one to the total |
| ChatFeed.PostAllMax | src/chat.js:359 | after a batch, `mxMsg` is at least the old value and every id, and equals one of them |
| ChatFeed.PostAllMin | src/chat.js:360 | after a non-empty batch of non-zero ids, `mnMsg` is set, non-zero, at most every id and at most the old value, and equals one of them |
| ChatFeed.PostAllMinIsFold | src/chat.js:360 | the low-water mark after a batch depends only on the ids |
| ChatFeed.FoldMinBounds | src/chat.js:360 | the bounds on the folded low-water mark |
| ChatFeed.ZeroIdResetsLowWaterMark | src/chat.js:360 | a record with id 0 lets the next record raise `mnMsg` from 5 to 7 |
| ChatFeed.Reversed | src/chat.js:424 | reversing keeps the length |
| ChatFeed.ReversedAt | src/chat.js:424 | position k of the reversed rows is the k-th row counted from the end |
| ChatFeed.PostAllAtTop | src/chat.js:424 | a polled batch without deletions puts its rows, reversed, in front of the old rows |
| ChatFeed.PostAllAtEnd | src/chat.js:458 | a history batch without deletions appends its rows in order after the old rows |
| ChatFeed.NewestFirst | src/chat.js:348-424 | after a polled batch the last record's row is first, the batch is reversed above the old rows, and the old rows follow unchanged |
| Chat.HiddenTitle | src/chat.js:432-433 | the hidden-page title is "(", the count, ") " and the original title |
| Chat.UserMayDelete | src/chat.js:120-123 | `userMayDelete`: the row's sender is the current user, or the user is an admin; MayDeletePostedRow applies it to a posted record |
| Chat.MayDeletePostedRow | src/chat.js:120-123 | the user may delete a row exactly when they sent it or are an admin |
| Chat.LoadCount | src/chat.js:23 | the history batch size is `abs(chatInitSize)`, or 20 when that is 0, and always positive |
| Chat.ChatClient.constructor | src/chat.js:15-24 | the initial state: `mxMsg` is `-chatInitSize` or -50, no rows, no bounds, zero counters, the toolbar listed and disabled |
| Chat.ChatClient.EnableAjaxComponents | src/chat.js:27-30 | the disabled set after enabling or disabling the listed controls |
| Chat.ChatClient.AjaxStart | src/chat.js:43-47 | the counter and disabled set follow `StartGate`; the toolbar invariant holds |
| Chat.ChatClient.AjaxEnd | src/chat.js:53-57 | the counter and disabled set follow `EndGate`; the toolbar invariant holds |
| Chat.ChatClient.InjectMessageElem | src/chat.js:67-78 | the rows become `Inject` of the old rows |
| Chat.ChatClient.DeleteMessageElem | src/chat.js:99-112 | returns true exactly when a row has the id, and removes the first such row unless the id is 0 |
| Chat.ChatClient.DeleteRowElem | src/chat.js:99-112 | given a row element, it removes that row and returns true |
| Chat.ChatClient.ProcessPost | src/chat.js:357-371 | the rows, bounds and total become `Post` of the old ones |
| Chat.ChatClient.NewContent | src/chat.js:352-434 | the feed becomes the fold of `Post` over the batch in order. Hidden: the counter grows by the batch length and the title shows it. Visible: the counter is reset and the original title restored when it was non-zero |
| Chat.ChatClient.ProcessAll | src/chat.js:424 | the `forEach` over the batch leaves the feed equal to the fold of `Post` over the records in order |
| Chat.ChatClient.OnVisibilityChange | src/chat.js:152-157 | `pageIsActive` is the visibility, and becoming visible restores the original title |
| Chat.ChatClient.LoadOldMessages | src/chat.js:451-482 | the reply's records go at the end. When `HistoryDone` holds, history is marked loaded, the toolbar is dropped from the list and disabled. The gate is `ajaxEnd` of `ajaxStart`'s gate with the toolbar added when done, so the counter returns to its old value. With a reply, the hidden-page counter and title follow `newcontent`; after a failed request they are unchanged |
| Chat.ChatClient.HistoryRequestSettled | src/chat.js:461-481 | the `finally` block: when done, the toolbar is marked, unlisted and disabled; then `ajaxEnd` |
| Chat.ChatClient.Poll | src/chat.js:495-507 | one poll's records go at the top. With a reply, the hidden-page counter and title follow `newcontent`; after a failed request they are unchanged. Only the first poll moves the gate, by a start/end pair |
| Chat.StartChat | src/chat.js:440-509 | after setup and the first poll, no request is in flight, the toolbar is enabled, the controls are gated, and the rows are the first reply's |
| BranchList.ParseSelection | src/fossil.page.brlist.js:24-25 | the suffix reads as no tags exactly when it is empty, and no tag holds the separator |
| BranchList.Selection | src/fossil.page.brlist.js:24-25 | the selection the page's href encodes, parsed from after the prefix as `onChange` reads it |
| BranchList.JoinParseSelection | src/fossil.page.brlist.js:24-41 | joining the parsed tags gives the suffix back |
| BranchList.ParseJoinSelection | src/fossil.page.brlist.js:24-41 | tags without the separator read back from their join, exactly unless they are one empty tag |
| BranchList.RemoveAllCount | src/fossil.page.brlist.js:30-35 | unchecking leaves the tag absent and keeps every other tag as often as before |
| BranchList.RemoveAllOrder | src/fossil.page.brlist.js:30-35 | unchecking keeps the remaining tags in their order |
| BranchList.SpliceOut | src/fossil.page.brlist.js:32-34 | the backward splice loop computes exactly `RemoveAll` of the selection |
| BranchList.RemoveAll | src/fossil.page.brlist.js:30-35 | the selection without any occurrence of the tag; RemoveAllCount, RemoveAllOrder and RemoveAllAbsent state its meaning |
| BranchList.NextSelection | src/fossil.page.brlist.js:26-35 | the selection after a change: the tag appended when checked, RemoveAll when unchecked; CheckThenUncheck and SelectionReadsBack are about it |
| BranchList.RemoveAllAbsent | src/fossil.page.brlist.js:32-34 | removing a tag not selected changes nothing |
| BranchList.RemoveAllEncodable | src/fossil.page.brlist.js:32-34 | removal keeps tags encodable |
| BranchList.CheckThenUncheck | src/fossil.page.brlist.js:26-35 | checking then unchecking a box removes its tag, and restores the selection when the tag was not in it |
| BranchList.Label | src/fossil.page.brlist.js:42 | the label is "View ", the count in decimal, and " branches" |
| BranchList.CheckedTags | src/fossil.page.brlist.js:46-55 | at most one tag per box |
| BranchList.CheckedTagsCount | src/fossil.page.brlist.js:46-55 | the initial selection has one tag per checked box |
| BranchList.SelectionReadsBack | src/fossil.page.brlist.js:24-41 | for non-empty tags without the separator, with the href read back as the string assigned, the selection written is the one read back at the next change |
| BranchList.BareLinkSelectsNothing | src/fossil.page.brlist.js:17-25 | a link not yet rewritten reads as no selection |
| BranchList.BranchListPage.constructor | src/fossil.page.brlist.js:47-50 | before `load`: the link as served, no row selected, the boxes disabled |
| BranchList.BranchListPage.WireBoxes | src/fossil.page.brlist.js:46-55 | the `forEach` enables every box, marks the checked boxes' rows, and collects exactly `CheckedTags` |
| BranchList.BranchListPage.OnLoad | src/fossil.page.brlist.js:13-63 | nothing changes without a "Timeline" link. Otherwise every box is enabled and the checked rows selected. The href carries the checked tags when there are any. The label and `selected` class are set only from two on |
| BranchList.BranchListPage.OnChange | src/fossil.page.brlist.js:20-44 | the href becomes the prefix plus the join of `NextSelection` of the selection read back. The label counts the tags and `selected` holds iff there are at least two. Only the changed row's class moves |

## Left out

- `src/fossil.diff.js` is not part of this model. It is DOM toggling, scrolling and floating-point layout arithmetic.
- Network access is left out: the chat-poll, chat-send, chat-delete and localhost-ping fetches and the promise chaining. Each fetch result is an input (`Option<seq<Record>>`).
- `deleteMessage` (global delete) is left out. It is a chat-delete fetch followed by `deleteMessageElem`, which is modelled.
- The `poll.running` reentrancy guard and the `setInterval` timer are left out. Both are event-loop plumbing. `Poll` models one call that is not skipped.
- `new Date(...)` parsing, time zones, `toISOString` and `iso8601ish` are left out. A record's local hours and minutes are an input, `None` when the host cannot compute them. `localTimeString` takes its fields as a `DateParts` value.
- The format of `m.mtime` is not checked. The UTC legend fallback `slice(11,16)` applies `Slice` to whatever text it holds.
- The toasts, popup widget, file attachments, drag and drop, paste, legend alignment and colours, and `innerHTML` of the message body are left out. None of them affects the state modelled.
- DOM element identity is not modelled: rows are identified by position and id. `DeleteRowElem` takes a position.
- Moving an element that is already in the list is not modelled, because `injectMessageElem` is only called with fresh rows.
- How DOM controls are enabled is not modelled: the fieldset toolbar is one `Control` in a disabled set.
- `anchor.href` URL normalisation by the browser is not modelled. The href is the string assigned. A browser percent-encodes spaces, quotes, `<`, `>`, control and non-ASCII characters in the query and cuts it at `#`. For a tag holding one of these, the parsed selection holds the encoded text, `selected[i] == tag` never matches, and unchecking that branch leaves it in the href. `BranchList.SelectionReadsBack` does not cover such tags.
- `Chat.ChatClient.DeleteRowElem`: the library's `D.remove` is not part of this model. For an element no longer in the list, the model assumes the rows stay unchanged.
- `BranchList.BranchListPage.OnChange`: the box's checked state after the click is a parameter, not a field of the page.
