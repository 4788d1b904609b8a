# itcuabot delivery pipeline in Dafny

This project models the delivery core of itcuabot, a Telegram bot that
relays the posts of one Twitter account to subscribed Telegram chats:

- `itcuabot/Database.py`: the two MongoDB collections. `tweets` is keyed by
  `str(tweet.id)` and has a unique index on `created_at`. `chats` is keyed by
  `str(chat.id)` and holds each chat's watermark `latest_id`. The model covers
  the document builders, the upserts and removals, and the connection URI.
- `itcuabot/EpicBot.py`: the bot object and its process-wide fetch cursor
  `latest_id`. The model covers the fetch job (ask the timeline for 1 post on
  a cold start and 5 afterwards, save each one, move the cursor to the
  largest id) and the send job (offer every stored post, in ascending `_id`
  order, to every subscribed chat whose watermark it passes, then remove the
  post). It also covers the `/start` and `/stop` commands.

Modules:

- `Wrappers`: `Option`.
- `PyValues`: what the code relies on from Python. This is `str()` of ints,
  strings and `None`, truthiness, and the order Python and MongoDB use for
  strings.
- `Store`: the documents, the `Database` class over two maps, and `Uri`.
- `Fetch`: specification functions and lemmas for one fetch job.
- `Dispatch`: specification functions and lemmas for one send job.
- `Relay`: the `EpicBot` class. Its methods are the two jobs and the two
  commands, each proved against the functions of `Fetch`, `Dispatch` and
  `Store`. The inner loop of the send job is a method of its own, `Offer`.

Three behaviours of `itcuabot/EpicBot.py` are easy to get wrong, and the
model keeps each as the code has it:

- Watermarks and tweet keys are compared as text, not as numbers.
  `PyValues.TextOrderIsNotNumberOrder`, `Dispatch.ShouldSendAcrossDigitCounts`
  and `PyValues.DigitsOrder` show where the two orders agree and where they
  do not.
- A failed `sendMessage` raises. It ends the send job at once. It does not
  skip to the next chat.
- A post is removed after its round, whatever each chat's watermark is and
  whether or not every chat has passed it.

## Model

| member | source | states |
|---|---|---|
| PyValues.StrIntRoundTrip | itcuabot/Database.py:28 | `str()` of an int reads back as that int, so a decimal key names exactly one id |
| PyValues.NoneIsNotAnId | itcuabot/Database.py:39 | the `'None'` text stored for an unset cursor is never the text of an id, and never empty |
| PyValues.StrLtTotal | itcuabot/EpicBot.py:160 | the text order compares any two distinct strings |
| PyValues.StrLtTransitive | itcuabot/EpicBot.py:160 | the text order is transitive |
| PyValues.LeastExists | itcuabot/EpicBot.py:148 | every non-empty set of keys has a least key in text order, so the ascending sort exists |
| PyValues.DigitsOrder | itcuabot/EpicBot.py:160 | for decimal ids with the same number of digits, text order is exactly number order |
| PyValues.TextOrderIsNotNumberOrder | itcuabot/EpicBot.py:160 | text order and number order disagree across digit counts: 9 < 10 but `'10'` sorts before `'9'` |
| Store.TweetDocument | itcuabot/Database.py:25-31 | the document's `_id` parses back to the post's id, and text and `created_at` are copied |
| Store.ChatDocument | itcuabot/Database.py:33-40 | builds the chat document: `_id` is `str(chat.id)`, the title is copied, the time is `now` and the watermark is `str(latest_id)`; `Store.ChatDocumentWatermark` characterises the watermark |
| Store.TweetDocumentKeysDistinct | itcuabot/Database.py:28 | two posts share a document key exactly when they share an id |
| Store.ChatDocumentWatermark | itcuabot/Database.py:33-40 | the stored watermark is `'None'` exactly when the cursor is unset, and otherwise parses back to the cursor |
| Store.PutTweet | itcuabot/Database.py:60-68 | a successful upsert stores the post's document under its key and a refused one changes nothing; every other key keeps its presence and its document |
| Store.PutTweetKeepsIndex | itcuabot/Database.py:86-88 | the upsert keeps documents under their own `_id` and `created_at` unique; it is refused exactly when another key already has that `created_at` |
| Store.PutTweetIdempotent | itcuabot/Database.py:64-67 | upserting the same post twice gives the same outcome as once |
| Store.PutChat | itcuabot/Database.py:42-49 | the chat's key is present with the given title, subscription time and `str(latest_id)`; the key set grows by at most that key; other chats are unchanged |
| Store.PutChatIdempotent | itcuabot/Database.py:46-49 | upserting a chat twice equals upserting it once, and documents stay under their own `_id` |
| Store.Removed | itcuabot/Database.py:52-58 | after removal the key `str(id)` is absent; a missing key changes nothing; every other key and document is kept |
| Store.Database.constructor | itcuabot/Database.py:78-89 | setup leaves both collections empty (an existing database is dropped) |
| Store.Database.SaveTweet | itcuabot/Database.py:60-68 | the tweets collection becomes `PutTweet` of the old one, and `ok` reports whether the unique index let the upsert through; chats unchanged |
| Store.Database.SaveChat | itcuabot/Database.py:42-50 | the chats collection becomes `PutChat` of the old one; tweets unchanged |
| Store.Database.RemoveChat | itcuabot/Database.py:52-58 | the chats collection loses the key `str(chat_id)`, present or not; tweets unchanged |
| Store.Database.RemoveTweet | itcuabot/Database.py:70-76 | the tweets collection loses the key `str(tweet_id)`, present or not; chats unchanged |
| Store.Database.FindTweetsSorted | itcuabot/EpicBot.py:148 | the result lists every stored tweet exactly once, under its key, in strictly ascending `_id` order |
| Store.Database.FindChats | itcuabot/EpicBot.py:149 | the result lists every stored chat exactly once |
| Store.Uri | itcuabot/Database.py:92-112 | the URI is `mongodb://`, then the credentials fields, then the host, port and database fields |
| Store.Credentials | itcuabot/Database.py:102-105 | the user, password and `@` fields of the URI; `Store.UriCredentials` gives its three shapes |
| Store.Location | itcuabot/Database.py:106-110 | the host, port and database fields with their separators; `Store.LocationSeparators` and `Store.LocationPrintsPortAndDb` characterise it |
| Store.UriCredentials | itcuabot/Database.py:100-105 | there are no credentials without a user, `user@` when the password is empty, and `user:password@` otherwise |
| Store.UriAtIffUser | itcuabot/Database.py:102-105 | the URI contains `@` exactly when a user is configured |
| Store.LocationSeparators | itcuabot/Database.py:106-110 | `:` appears exactly when the port is truthy and `/` exactly when the database is truthy |
| Store.LocationPrintsPortAndDb | itcuabot/Database.py:106-110 | the port and database are printed even when their separators are dropped |
| Fetch.FetchLimit | itcuabot/EpicBot.py:128 | a fetch asks for one post or five, and for five exactly when the cursor is set and non-zero (truthy) |
| Fetch.Take | itcuabot/EpicBot.py:126-130 | the batch is a prefix of the timeline, at most `count` posts long, and shorter only when the timeline runs out |
| Fetch.FetchLimitBound | itcuabot/EpicBot.py:128-130 | a cold start fetches at most one post, any fetch at most five, and a set non-zero cursor asks for five |
| Fetch.RunningMax | itcuabot/EpicBot.py:131 | one step of the running maximum is at least the new id and the old maximum, and is one of the two |
| Fetch.MaxId | itcuabot/EpicBot.py:129-131 | the running maximum after the whole batch, one `RunningMax` step per post in batch order; `Fetch.MaxIdIsMax` characterises it |
| Fetch.MaxIdIsMax | itcuabot/EpicBot.py:129-131 | the running maximum over the batch is an id of the batch and at least every id in it; it is `None` exactly for an empty batch |
| Fetch.AdvanceCursor | itcuabot/EpicBot.py:134-136 | the cursor after a fetch: the batch's maximum when it is truthy, the old cursor otherwise; `Fetch.AdvanceCursorToMax` and `Fetch.AdvanceCursorMonotone` characterise it |
| Fetch.AdvanceCursorToMax | itcuabot/EpicBot.py:134-136 | an empty batch leaves the cursor as it was; otherwise the cursor becomes the batch's largest id |
| Fetch.AdvanceCursorMonotone | itcuabot/EpicBot.py:126-136 | when the timeline honours `since_id`, the cursor never moves back |
| Fetch.SaveBatch | itcuabot/EpicBot.py:130-132 | the `save_tweet` calls of the loop in batch order, stopping at the first one the unique index refuses; `Fetch.SaveBatchStores`, `Fetch.SaveBatchKeys` and `Fetch.SaveBatchSucceeds` characterise it |
| Fetch.SaveBatchKeys | itcuabot/EpicBot.py:130-132 | whether or not the batch is saved in full, every key afterwards was there before or is `str(id)` of a post of the batch |
| Fetch.SaveBatchStores | itcuabot/EpicBot.py:130-132 | a batch saved in full leaves every post under `str(id)`; the last post with a given id wins; every old key stays and keeps its document unless a post has it; no key outside the old keys and the posts' keys appears |
| Fetch.SaveBatchKeepsIndex | itcuabot/EpicBot.py:130-132 | the key invariant and the unique `created_at` index hold after every batch, whether it was saved in full or stopped |
| Fetch.SaveBatchOfStored | itcuabot/EpicBot.py:130-132 | re-saving posts already stored as they are changes nothing and succeeds |
| Fetch.SaveBatchSucceeds | itcuabot/EpicBot.py:130-132 | a batch is saved in full whenever posts with different ids have different `created_at` and no document stored under another key holds a post's `created_at` |
| Fetch.SaveBatchIdempotent | itcuabot/EpicBot.py:130-132 | fetching the same batch of distinct posts twice leaves the store as fetching it once |
| Fetch.FetchLoopPy3 | itcuabot/EpicBot.py:129-132 | the fetch loop as Python 3 runs it: each post's comparison comes before its save, and a comparison with `None` raises; `Fetch.Py3FetchRaisesOnFirstTweet` characterises it |
| Fetch.Py3FetchRaisesOnFirstTweet | itcuabot/EpicBot.py:129-131 | under Python 3, any non-empty batch raises at its first post with nothing saved, although the batch does have a maximum |
| Dispatch.ShouldSend | itcuabot/EpicBot.py:159-160 | a chat is due a post when its watermark is empty, `'None'`, or below the post's id as text; `Dispatch.WantedMembers` and `Dispatch.ShouldSendAcrossDigitCounts` characterise it |
| Dispatch.Fanout | itcuabot/EpicBot.py:157-163 | one post offered to the snapshot chats in order: a due chat is sent the post and rewritten, and a refused send sets `failed` and stops the round; `Dispatch.FanoutSent`, `Dispatch.FanoutFails` and `Dispatch.FanoutChats` characterise it |
| Dispatch.DispatchFrom | itcuabot/EpicBot.py:155-164 | the posts in order, each offered by `Fanout` and then removed, stopping at the first failed round; `Dispatch.SendCycle` and `Dispatch.SendCycleFailure` characterise it |
| Dispatch.WantedMembers | itcuabot/EpicBot.py:157-163 | a chat is sent a post exactly when its snapshot watermark is empty, `'None'`, or below the post's id as text |
| Dispatch.PlanMembers | itcuabot/EpicBot.py:155-163 | a delivery is in the cycle's plan exactly when some pending post passes some snapshot chat's watermark |
| Dispatch.SubscribeSkipsBacklog | itcuabot/EpicBot.py:159-160 | a chat subscribed at a positive cursor is sent a post whose id has the same digit count exactly when the id is above the cursor |
| Dispatch.ShouldSendAcrossDigitCounts | itcuabot/EpicBot.py:159-160 | across digit counts the text test withholds a newer post (10 from watermark 9) and passes an older one (95 to watermark 100) |
| Dispatch.WantedShape | itcuabot/EpicBot.py:157-163 | the deliveries of one post all carry that post and go to pairwise distinct chats |
| Dispatch.PlanAscending | itcuabot/EpicBot.py:148-163 | along the plan the post ids never decrease, and for each chat they strictly increase |
| Dispatch.SentinelGetsEverything | itcuabot/EpicBot.py:159-162 | a chat whose watermark is `'None'` is sent every pending post |
| Dispatch.FanoutSent | itcuabot/EpicBot.py:157-163 | one post's round leaves the tweets alone and sends a prefix of what that post is owed: all of it when the round does not fail, a proper prefix when it does |
| Dispatch.FanoutFails | itcuabot/EpicBot.py:157-163 | a round fails exactly when some chat the post passes has its `sendMessage` refused |
| Dispatch.RoundFailsPlanned | itcuabot/EpicBot.py:157-162 | a round fails exactly when one of the deliveries it plans is refused |
| Dispatch.FailingRoundIsFirst | itcuabot/EpicBot.py:155-164 | `FailingRound` is the first post whose round has a refused send: every earlier round goes through |
| Dispatch.Reached | itcuabot/EpicBot.py:157-162 | how many snapshot chats a round gets through before a send is refused, at most all of them |
| Dispatch.ReachedIsFirst | itcuabot/EpicBot.py:157-162 | `Reached` stops at the first due chat whose send is refused; every earlier chat was not due or took the post; it stops short exactly when the round fails |
| Dispatch.FanoutSendsReached | itcuabot/EpicBot.py:157-163 | a round sends exactly the deliveries the post calls for among the chats it reached |
| Dispatch.FanoutChats | itcuabot/EpicBot.py:157-163 | a round changes only the snapshot chats: a due chat the round reached before any refusal holds the post as its watermark, and every other chat, the refusing one included, keeps its document; after a complete round every due chat holds the post |
| Dispatch.DispatchSent | itcuabot/EpicBot.py:155-164 | the cycle sends a prefix of the plan, and all of it when it does not fail |
| Dispatch.DispatchFails | itcuabot/EpicBot.py:155-164 | the cycle fails exactly when some round fails, that is exactly when some planned delivery is refused |
| Dispatch.FailingRoundPlanned | itcuabot/EpicBot.py:155-164 | some round fails exactly when some delivery of the plan is refused |
| Dispatch.DispatchRemoves | itcuabot/EpicBot.py:155-164 | the cycle removes exactly the posts before the first failing round, and all of them when no round fails |
| Dispatch.DispatchSentOnFailure | itcuabot/EpicBot.py:155-164 | a failed cycle has sent the plan of the posts before the first failing round, followed by a proper prefix of that round's deliveries |
| Dispatch.DispatchChats | itcuabot/EpicBot.py:155-164 | a cycle without failure leaves each snapshot chat as `FinalChat` says and keeps the chat keys |
| Dispatch.DispatchChatsOnFailure | itcuabot/EpicBot.py:155-164 | after a failed cycle each snapshot chat holds the failing post if that round reached it before the refusal and it was due, and otherwise what the posts before the failing round left it |
| Dispatch.FinalChatWatermark | itcuabot/EpicBot.py:155-163 | a chat that is owed nothing is untouched; otherwise its final watermark is the highest post it was sent, with its title kept and the subscription time refreshed |
| Dispatch.WatermarkNeverDecreases | itcuabot/EpicBot.py:155-163 | along `FinalChat` a real watermark only moves up in text order; `Dispatch.CycleWatermarkNeverDecreases` carries this to every cycle, failed or not |
| Dispatch.SendCycle | itcuabot/EpicBot.py:148-164 | a cycle over the store's snapshot fails exactly when a planned delivery is refused; without failure it sends exactly the plan, empties the tweets and sets every chat as `FinalChat` says; the chat keys never change |
| Dispatch.SendCycleFailure | itcuabot/EpicBot.py:148-164 | a failed cycle stops at the first round with a refused send: the earlier rounds went out in full, that round in part; the posts before it are gone and it and the later ones remain unchanged |
| Dispatch.SendCycleFailureChats | itcuabot/EpicBot.py:148-164 | after a failed cycle over the store's snapshot each chat holds the failing post if it was reached and due, and otherwise `FinalChat` of the posts before the failing one; the chat that refused keeps that document; the chat keys never change |
| Dispatch.CycleWatermarkNeverDecreases | itcuabot/EpicBot.py:148-164 | whether or not a send is refused, a chat with a real watermark ends the cycle on that id or a higher one in text order |
| Relay.EpicBot.constructor | itcuabot/EpicBot.py:13-22 | the bot starts with no cursor over the given store |
| Relay.EpicBot.JobFetch | itcuabot/EpicBot.py:121-140 | the tweets become `SaveBatch` of the first `FetchLimit` posts; if every save succeeded the cursor becomes `AdvanceCursor`, otherwise it is unchanged; chats unchanged |
| Relay.EpicBot.JobSend | itcuabot/EpicBot.py:142-168 | it snapshots the tweets (sorted, complete) and the chats, then the new store, the sent messages and the failure flag are `DispatchFrom` over those snapshots |
| Relay.EpicBot.Offer | itcuabot/EpicBot.py:157-163 | one tweet's round: the new store, the messages sent and the failure flag are `Fanout` of the old store over the snapshot chats |
| Relay.EpicBot.CmdStart | itcuabot/EpicBot.py:45-54 | it subscribes exactly the allowed chat -1001096194569, with `str(latest_id)` as the watermark (`'None'` before the first fetch); other chats leave the store as it was |
| Relay.MayUnsubscribe | itcuabot/EpicBot.py:61 | a chat may be unsubscribed when there is no sender or the sender is `antidotcb` or `St_Claus`; `Relay.EpicBot.CmdStop` states its effect |
| Relay.EpicBot.CmdStop | itcuabot/EpicBot.py:56-66 | it removes the chat exactly when there is no sender or the sender is `antidotcb` or `St_Claus`; otherwise the store is unchanged |

## Left out

- `main.py`, the Telegram updater and the job scheduler are not part of this model. Jobs and commands are modelled one call at a time and never interleave.
- The replies to the user (`reply`), `cmd_latest`, `cmd_ping`, `cmd_terminate`, `not_implemented` and logging do not touch the pipeline's state and are left out.
- `self.chats = self.db.chats.find()` in `cmd_start` and `cmd_stop` stores a cursor that nothing reads, so it is not modelled.
- The Twitter timeline is an input sequence that `JobFetch` receives. The model takes it to hold only posts newer than `since_id`, as the service promises. Rate limits and network errors are not modelled.
- `sendMessage` is a function parameter. `false` stands for the exception it raises.
- `datetime.now()` is one `now` parameter per operation. Every watermark written in one send job gets the same time.
- `quote_plus` is a function parameter of `Uri`. Its percent-encoding is not modelled.
- Store.Uri: user and password are strings, with an unset value written as `""`. The case where a user is set but the password is `None` is not modelled: there `quote_plus(None)` raises.
- The MongoDB client, the connection and outages of the store are left out. `find()` returns documents in an arbitrary order, so the model only promises that `FindChats` lists each chat once.
- A chat's `title` is a string. A private chat's `None` title is not modelled.
- Tweet ids and timestamps are unbounded integers; Twitter's 64-bit id width is not modelled. A cursor of 0 is falsy, as in Python, and the model keeps that.

## Findings

| source | as written | input that shows it | evidently intended | confidence | as-written member | corrected member |
|---|---|---|---|---|---|---|
| itcuabot/EpicBot.py:129-131 | the running maximum starts at `None` and is compared with `latest_id < tweet.id`; Python 3 refuses to order `None` against an int and raises `TypeError` | any non-empty batch, e.g. one post with id 101 on a cold start | `None` below every id (the Python 2 reading): save the whole batch and move the cursor to its largest id | high for Python 3; not executed | Fetch.Py3FetchRaisesOnFirstTweet | Fetch.MaxIdIsMax |
