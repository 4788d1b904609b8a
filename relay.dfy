/**
  The bot object of itcuabot/EpicBot.py: its process-wide fetch cursor
  `latest_id`, the two repeating jobs and the two subscription commands.
  The Twitter timeline, `sendMessage` and `datetime.now()` come in as
  parameters; replies to the user are not modelled.
 */
module Relay {
  import opened Wrappers
  import opened PyValues
  import opened Store
  import opened Fetch
  import opened Dispatch

  /** The one chat `/start` accepts (https://t.me/itcuachat). */
  const AllowedChat: int := -1001096194569

  /** Telegram's `from_user`; its `username` may be missing. */
  datatype User = User(username: Option<string>)

  /** `/stop` is refused only for a known sender who is not one of the two administrators. */
  predicate MayUnsubscribe(from: Option<User>) {
    from.None? || from.value.username == Some("antidotcb") || from.value.username == Some("St_Claus")
  }

  class EpicBot {
    const db: Database
    /** The fetch cursor; `None` until a fetch has seen a post. */
    var latestId: Option<int>

    ghost predicate Valid()
      reads this, db
    {
      db.Valid()
    }

    constructor (db: Database)
      requires db.Valid()
      ensures this.db == db && latestId == None && Valid()
    {
      this.db := db;
      latestId := None;
    }

    /**
      `job_fetch`: take at most `FetchLimit` posts of what the timeline
      yields, keep their running maximum and save each; if every save went
      through, move the cursor to a truthy maximum. A save the unique index
      refuses raises out of the job: later posts are not saved and the
      cursor stays.
     */
    method JobFetch(timeline: seq<Tweet>) returns (ok: bool)
      requires Valid()
      modifies this, db
      ensures Valid()
      ensures Saved(db.tweets, ok) == SaveBatch(old(db.tweets), Take(timeline, FetchLimit(old(latestId))))
      ensures latestId == if ok then AdvanceCursor(old(latestId), Take(timeline, FetchLimit(old(latestId)))) else old(latestId)
      ensures db.chats == old(db.chats)
    {
      var count := FetchLimit(latestId);
      var tweets := Take(timeline, count);
      ghost var start := db.tweets;
      var maxId: Option<int> := None;
      var i := 0;
      while i < |tweets|
        invariant 0 <= i <= |tweets|
        invariant db.Valid()
        invariant maxId == MaxId(tweets[..i])
        invariant SaveBatch(db.tweets, tweets[i..]) == SaveBatch(start, tweets)
        invariant db.chats == old(db.chats) && latestId == old(latestId)
      {
        var tweet := tweets[i];
        MaxIdAt(tweets, i);
        maxId := RunningMax(maxId, tweet.id);
        SaveBatchAt(db.tweets, tweets, i);
        var saved := db.SaveTweet(tweet);
        if !saved {
          ok := false;
          return;
        }
        i := i + 1;
      }
      assert tweets[..i] == tweets;
      if Truthy(CursorValue(maxId)) {
        latestId := maxId;
      }
      ok := true;
    }

    /**
      `job_send`: snapshot the tweets in ascending `_id` order and the
      chats; offer each tweet to each snapshot chat whose snapshot watermark
      it passes, saving the chat's watermark after every delivery; remove
      each tweet after its round. A failed send raises out of the job.
     */
    method JobSend(send: Sender, now: Timestamp)
      returns (sent: seq<Delivery>, ok: bool, ghost pending: seq<TweetDoc>, ghost snapshot: seq<ChatDoc>)
      requires Valid()
      modifies db
      ensures Valid()
      ensures SortedById(pending) && ListsTweets(pending, old(db.tweets)) && ListsChats(snapshot, old(db.chats))
      ensures Cycle(db.tweets, db.chats, sent, !ok)
        == DispatchFrom(Cycle(old(db.tweets), old(db.chats), [], false), pending, snapshot, send, now)
    {
      var tweets := db.FindTweetsSorted();
      var chats := db.FindChats();
      pending, snapshot := tweets, chats;
      sent := [];
      ghost var goal := DispatchFrom(Cycle(db.tweets, db.chats, [], false), tweets, chats, send, now);
      var i := 0;
      while i < |tweets|
        invariant 0 <= i <= |tweets|
        invariant Valid()
        invariant DispatchFrom(Cycle(db.tweets, db.chats, sent, false), tweets[i..], chats, send, now) == goal
      {
        var tweet := tweets[i];
        DispatchAt(Cycle(db.tweets, db.chats, sent, false), tweets, i, chats, send, now);
        var delivered;
        sent, delivered := Offer(tweet, chats, sent, send, now);
        if !delivered {
          ok := false;
          return;
        }
        db.RemoveTweet(Text(tweet.id));
        i := i + 1;
      }
      ok := true;
    }

    /**
      The inner loop of `job_send`: one tweet offered to the snapshot chats
      in order. Each chat it passes gets the message and then has its
      watermark saved; a failed send stops the round.
     */
    method Offer(tweet: TweetDoc, chats: seq<ChatDoc>, sent0: seq<Delivery>, send: Sender, now: Timestamp)
      returns (sent: seq<Delivery>, ok: bool)
      requires Valid()
      modifies db
      ensures Valid()
      ensures Cycle(db.tweets, db.chats, sent, !ok)
        == Fanout(Cycle(old(db.tweets), old(db.chats), sent0, false), tweet, chats, send, now)
    {
      sent := sent0;
      ghost var goal := Fanout(Cycle(db.tweets, db.chats, sent, false), tweet, chats, send, now);
      var j := 0;
      while j < |chats|
        invariant 0 <= j <= |chats|
        invariant Valid()
        invariant Fanout(Cycle(db.tweets, db.chats, sent, false), tweet, chats[j..], send, now) == goal
      {
        var chat := chats[j];
        FanoutAt(Cycle(db.tweets, db.chats, sent, false), tweet, chats, j, send, now);
        if ShouldSend(chat.latestId, tweet.id) {
          var delivered := send(chat.id, tweet.text);
          if !delivered {
            ok := false;
            return;
          }
          db.SaveChat(Chat(Text(chat.id), chat.title), Text(tweet.id), now);
          sent := sent + [Delivery(chat.id, tweet.id, tweet.text)];
        }
        j := j + 1;
      }
      ok := true;
    }

    /**
      `cmd_start`: only the allowed chat subscribes, with the cursor as its
      watermark (`'None'` before the first fetch); any other chat leaves the
      store as it was.
     */
    method CmdStart(chat: Chat, now: Timestamp) returns (subscribed: bool)
      requires Valid()
      modifies db
      ensures Valid()
      ensures subscribed <==> chat.id == Int(AllowedChat)
      ensures db.chats == if subscribed then PutChat(old(db.chats), chat, CursorValue(latestId), now) else old(db.chats)
      ensures db.tweets == old(db.tweets)
    {
      if chat.id != Int(AllowedChat) {
        return false;
      }
      db.SaveChat(chat, CursorValue(latestId), now);
      subscribed := true;
    }

    /**
      `cmd_stop`: removes the chat unless a sender is known and is neither
      administrator; a message without a sender still unsubscribes.
     */
    method CmdStop(chat: Chat, from: Option<User>) returns (unsubscribed: bool)
      requires Valid()
      modifies db
      ensures Valid()
      ensures unsubscribed <==> MayUnsubscribe(from)
      ensures db.chats == if unsubscribed then Removed(old(db.chats), chat.id) else old(db.chats)
      ensures db.tweets == old(db.tweets)
    {
      if from.Some? && !(from.value.username == Some("antidotcb") || from.value.username == Some("St_Claus")) {
        return false;
      }
      db.RemoveChat(chat.id);
      unsubscribed := true;
    }
  }
}
