# Twitter media bot for Telegram: the message handler, verified

This project models the decision logic of `bot.js`, a grammY bot. A user sends
the bot a link to a tweet, and the bot replies with the tweet's photo or video.
The model covers these parts of the `msg` handler and the error handlers:

- **Input classification.** The handler tests the text with `includes`,
  first for `t.co`, then for `"twitter" && "https"`. That expression evaluates
  to `"https"`, so the word `twitter` is never looked for.
- **`removeTcoLinks`.** A case-insensitive global replace of
  `https?:\/\/t\.co\/\w+` (flags `gi`), modelled as the left-to-right scan the replace performs.
- **Choosing the video variant.** The variant list is sorted in place, widest
  first, on the integer before the `x` of its `dimension`. Element 0 is then
  read.
- **Dispatch and caption.** An image is sent as a photo and a video or gif as a
  video; anything else gets no reply. Both carry the same Markdown caption.
- **Error classifiers.** The handler's `catch` block matches substrings of the
  error message. `bot.catch` compares the error description for exact equality.
- **The handler as a trace.** The ordered list of actions the handler issues:
  - replies;
  - the delayed deletion of the status message;
  - the resolver call;
  - the photo or video.

  The trace also records the error that escapes to `bot.catch`.

The outside world enters as inputs:

- the message id Telegram assigns to the status reply;
- the resolver's answer, or the error it rejects with;
- a `Transport` function that says which outgoing action fails, and with which
  error.

The handler awaits the 3000 ms deletion of the status message before it calls
the resolver (bot.js:80). The deletion is scheduled with `setTimeout` inside
`deleteMessageWithDelay`, which reads like a background timer, but the `await`
makes it blocking. So every download waits for the deletion, and a failed
deletion (for example in a group, where `ctx.from.id` is not the chat) escapes
to `bot.catch` before the resolver is called.

The handler can raise TypeErrors of its own. They are modelled as errors with
V8's messages:

- a message without a sender (`from.last_name`, bot.js:49);
- a message without text (`text.includes`, bot.js:56);
- a video whose `download` is a single URL (`download.sort`, bot.js:96);
- an empty variant list (`highestQuality.url`, bot.js:104).

Files:

- `wrappers.dfy` holds `Option`.
- `text.dfy` holds `includes`.
- `tco_links.dfy` holds `removeTcoLinks`.
- `quality.dfy` holds the width parse, the stable sort (a function and the
  in-place insertion sort on an array) and the selection.
- `bot.dfy` holds the types, the classification, the caption, dispatch, both
  classifiers and the traces.

## Model

| member | source | states |
|---|---|---|
| Text.ContainsIff | bot.js:56 | `includes` as a left-to-right scan holds exactly when some window of the text equals the needle (both directions) |
| TcoLinks.WordRunIsLongest | bot.js:84 | greedy `\w+`: the run holds only word characters and stops at the end or at a non-word character |
| TcoLinks.PrefixesExclusive | bot.js:84 | `https?`: text cannot start with both `https://t.co/` and `http://t.co/`, whatever the letter case |
| TcoLinks.MatchLength | bot.js:84 | the match at the start of the text is either absent (0) or longer than the shortest prefix and inside the text |
| TcoLinks.MatchLengthIsLongestLink | bot.js:84 | a positive match length is a whole link (prefix in any case, then word characters) that the next character cannot extend; no longer prefix is a link; length 0 means no prefix of the text is a link |
| TcoLinks.RemoveTcoLinks | bot.js:83-87 | the cleaned text is never longer than the input |
| TcoLinks.ShorterIffLink | bot.js:85 | the text gets shorter exactly when some position starts a link |
| TcoLinks.UnchangedIffNoLink | bot.js:85 | the text comes back unchanged exactly when no position starts a link |
| TcoLinks.KeepsTextWithoutLink | bot.js:85 | a text without a link is returned as it is |
| TcoLinks.KeepsPrefixWithoutLink | bot.js:85 | everything before the first link position is kept verbatim |
| TcoLinks.FirstLinkRemoved | bot.js:84-85 | left-to-right and non-overlapping: the text before the first link is kept, that link is dropped whole, and the scan continues after it |
| TcoLinks.KeepsOrder | bot.js:85 | the output is a subsequence of the input: every kept character was in the text, in the same order |
| Quality.BeforeXIsLongestPrefixWithoutX | bot.js:98 | `split("x")[0]` is the longest prefix without an `x` |
| Quality.LeadingDigitsIsLongestDigitPrefix | bot.js:98 | `parseInt` reads the longest run of leading decimal digits |
| Quality.Decimal | bot.js:98 | a decimal numeral is a non-empty string of digits |
| Quality.DecimalValueOfDecimal | bot.js:98 | reading a numeral back gives the number it was written from |
| Quality.LeadingDigitsOfDigits | bot.js:98 | a string of digits is read in full |
| Quality.BeforeXOfNoXThenX | bot.js:98 | the part before the first `x` of `w + "x" + h` is `w` when `w` has no `x` |
| Quality.WidthOfDimension | bot.js:98 | the sort key of a dimension `"<w>x<h>"` is `w` |
| Quality.InsertByWidth | bot.js:96-101 | inserting into the sorted list adds exactly one element |
| Quality.SortByWidth | bot.js:96-101 | sorting keeps the length |
| Quality.InsertIsPermutation | bot.js:96-101 | inserting adds the element and keeps all the others (multiset) |
| Quality.SortIsPermutation | bot.js:96-101 | the sorted list is a permutation of the variants |
| Quality.InsertKeepsDescending | bot.js:96-101 | inserting into a list sorted widest first keeps it sorted |
| Quality.ConsDescending | bot.js:96-101 | a variant put in front of a widest-first list no wider than it keeps the list widest first |
| Quality.InsertKeepsBound | bot.js:96-101 | inserting never makes the list wider than its widest element and the inserted one |
| Quality.SortIsDescending | bot.js:96-101 | the comparator `b - a` orders the list widest first |
| Quality.InsertAt | bot.js:96-101 | an element goes after every variant at least as wide and before the first narrower one |
| Quality.FirstWidest | bot.js:102 | the index of a widest variant, with every earlier variant strictly narrower |
| Quality.SortHeadIsFirstWidest | bot.js:96-102 | the stable sort puts first the earliest-listed of the widest variants |
| Quality.HighestQuality | bot.js:102 | element 0 is absent exactly for an empty list, and otherwise is the first widest variant |
| Quality.InsertNext | bot.js:96-101 | one in-place insertion step makes the array's first `i + 1` elements the sorted insertion and leaves the rest unchanged |
| Quality.InsertedAtGap | bot.js:96-101 | the array shifted up from the gap, with the key in the gap, is the sorted insertion |
| Quality.SortInPlace | bot.js:96-101 | the array is reordered in place into the stable widest-first order of its old contents |
| Quality.SelectHighestQuality | bot.js:96-102 | after the in-place sort, element 0 is the first widest of the original variants, or absent for an empty list |
| Bot.NoticeText | bot.js:57-158 | the literal reply texts of bot.js:57, 62, 67, 118, 123, 133 and 158; every one is non-empty, and exactly the Markdown ones (all but `bot.catch`'s) start with the bold marker `*` |
| Bot.NoticeShowsDetail | bot.js:123-133 | the two error replies show the error's message |
| Bot.ClassifyInput | bot.js:56-66 | `t.co` wins first; then no `https` means "not a tweet"; otherwise the text is resolved (each case as an if-and-only-if) |
| Bot.TwitterNeverConsulted | bot.js:61 | two texts that agree on containing `t.co` and `https` are classified alike, whatever `twitter` they hold |
| Bot.AttributionShowsAuthor | bot.js:92 | the attribution shows the author's display name and username |
| Bot.CaptionShowsTextAndAuthor | bot.js:90-92 | the caption shows the cleaned tweet text, the author's name and the username |
| Bot.CaptionKeepsTextWithoutLink | bot.js:90-92 | tweet text without a short link appears verbatim in bold, followed by the linked author |
| Bot.Dispatched | bot.js:89-111 | image → a photo of `response.download` as given; video or gif → a video (never a photo); a video or gif whose download is a single URL → the `sort is not a function` TypeError; an empty variant list → the `.url` TypeError; not found or another type → nothing; photo and video carry the same caption |
| Bot.VideoIsWidest | bot.js:95-107 | the video sent is the URL of the first widest variant |
| Bot.HandlerErrorReply | bot.js:113-137 | no reply exactly for a Grammy error whose message contains the blocked text (checked before `sendVideo`); then "Error contacting Twitter", "An error occurred: <message>", or for any other error the "Are you sure" reply with the message; every reply is threaded and Markdown |
| Bot.TopLevelReply | bot.js:153-164 | a plain, unthreaded "An error occurred" exactly for a Grammy error whose description is not equal to the blocked text; HTTP and other errors get nothing |
| Bot.BlockedTestsDiffer | bot.js:113-164 | a blocked error whose description has more than the bare phrase is silenced by the handler (substring) but answered by `bot.catch` (equality) |
| Bot.TryBlock | bot.js:81-111 | a resolver rejection is thrown on to the `catch` block; a dispatched photo or video is sent and its failure, if any, is thrown; a dispatch TypeError is thrown; no media means nothing happens; at most one action, always a photo or a video |
| Bot.CatchBlock | bot.js:112-137 | an error thrown in the `try` block gets exactly `HandlerErrorReply`'s reply for it, threaded; a failure of that reply escapes the handler; nothing thrown means nothing sent |
| Bot.Handle | bot.js:44-139 | the resolver is called only as the third action, with the message text, after the status reply and its 3000 ms deletion of the sender's chat have both succeeded; a missing sender or text throws before any action; every failed reply or deletion is the last action and its error escapes to `bot.catch`; any other escaped error is exactly such a failure |
| Bot.HandleUpdate | bot.js:144-165 | the update's actions begin with the handler's; `bot.catch` adds exactly one plain, unthreaded "An error occurred", and does so exactly when an escaped Grammy error's description is not equal to the blocked text |
| Bot.ShortLinkTrace | bot.js:56-60 | a text containing `t.co` gets exactly one threaded short-link reply and nothing else |
| Bot.NotATweetTrace | bot.js:61-65 | a text with neither `t.co` nor `https` gets exactly one threaded "Send a valid Tweet" reply |
| Bot.ResolveTracePrefix | bot.js:67-82 | a link starts with the `*Downloading*` reply, then its deletion after 3000 ms, then the resolver call |
| Bot.FailedDeleteSkipsResolver | bot.js:70-82 | a failed deletion escapes the handler before the resolver is called |
| Bot.ResolvedTrace | bot.js:82-137 | with a reliable transport, the trace after the resolver call is the dispatched media, nothing, or the "Are you sure" reply for the handler's own TypeError |
| Bot.EmptyVariantsTrace | bot.js:102-104 | an empty variant list ends in the "Are you sure" reply naming the failed `.url` read |
| Bot.RejectedTrace | bot.js:82-136 | with a reliable transport, a rejected resolver call ends the trace with the `catch` block's reply for that error (the "Are you sure" reply unless it is a Grammy error) |
| Bot.FailedSendTrace | bot.js:89-137 | a failed photo or video send is followed by the `catch` block's reply for that failure |
| Bot.FailedVideoTrace | bot.js:105-121 | a failed `sendVideo` (not a block) ends the trace with the threaded "Error contacting Twitter" reply |
| Bot.RepliesAreThreaded | bot.js:56-137 | every reply the handler sends, except the status reply, is threaded to the user's message |
| Bot.MissingFieldsGetNoReply | bot.js:47-56 | a message without a sender or without text raises a TypeError before any action, and `bot.catch` sends nothing |
| Bot.FailedFirstReplyReachesTopLevel | bot.js:56-66 | a failed "Short links" or "Send a valid Tweet" reply, awaited outside the `try`, escapes; `bot.catch` adds "An error occurred" unless the description is the blocked text |
| Bot.FailedStatusReplyReachesTopLevel | bot.js:67-69 | a failed status reply escapes at once, with no deletion and no resolver call, and `bot.catch` classifies it |
| Bot.FailedCatchReplyReachesTopLevel | bot.js:113-137 | a reply of the `catch` block that fails escapes the handler; after a rejected resolver call it is followed by `bot.catch`'s "An error occurred" unless the user blocked the bot |

## Left out

- Bot construction, token loading and `bot.start()` (bot.js:1-8, 169) are left out: they are process setup.
- The `responseTime` middleware (bot.js:12-19) is left out: it reads the wall clock only to log.
- The `/start` and `/help` commands (bot.js:23-40) are left out: they send fixed text and hold no logic.
- All `console.log` and `console.error` output is left out. The name formatting at bot.js:48-51 is modelled only through the TypeError it raises when there is no sender.
- Timers and the Telegram API are left out. The delayed deletion is the action `DeleteAfter(chat, message, 3000)`, and a failure of any outgoing call comes from the `Transport` input.
- `twitterGetUrl` is left out: it is a foreign library. Its answer or rejection is an input.
- Quality.Width: a dimension without leading digits reads as width 0, where `parseInt` gives `NaN`. A `NaN` comparison leaves the order to the engine. Leading blanks and signs, which `parseInt` accepts, are not modelled either, nor is the loss of precision above 2^53. Nor is a `0X` prefix, which `parseInt` with no radix reads as hexadecimal: `"0X1A0x720"` has width 416 in JavaScript and 0 in the model (the split is on the lower-case `x` only).
- Bot.Handle: `found` is a boolean and `tweet_user` is always present. JavaScript truthiness and a missing `tweet_user` are not modelled.
- Bot.Dispatched: an image's `download` is passed on as given. What Telegram makes of a list sent as a photo is up to the `Transport` input.
- Bot.TopLevelReply: the reply in `bot.catch` is not awaited. If it fails, Node reports an unhandled rejection; that is not modelled.
- Markdown rendering of replies and captions is left out: it is Telegram's. Only the literal texts are modelled (`Bot.NoticeText`, `Bot.Caption`).
- Concurrency between updates is left out: the handler shares no state between updates.
