/**
  The bot's MongoDB store (itcuabot/Database.py): two keyed collections,
  `tweets` and `chats`, whose documents are keyed by the TEXT of the id
  (`_id = str(id)`), the pure document builders, upsert and remove by key,
  the unique index on `created_at`, and the connection string builder.
 */
module Store {
  import opened Wrappers
  import opened PyValues

  /** `datetime` values; only compared for equality by the unique index. */
  type Timestamp = int

  /** A timeline post as the Twitter client hands it over. */
  datatype Tweet = Tweet(id: int, text: string, createdAt: Timestamp)

  /**
    What `chat_document` reads of a chat: Telegram's chat in `cmd_start`
    (an integer id) and, in `job_send`, a stored chat document (whose `_id`
    is already text).
   */
  datatype Chat = Chat(id: Value, title: string)

  datatype TweetDoc = TweetDoc(id: string, text: string, createdAt: Timestamp)

  datatype ChatDoc = ChatDoc(id: string, title: string, subscribed: Timestamp, latestId: string)

  /** The tweet document: keyed by the decimal text of the id, text and date copied. */
  function TweetDocument(t: Tweet): (d: TweetDoc)
    ensures ParseInt(d.id) == Some(t.id)
    ensures d.text == t.text && d.createdAt == t.createdAt
  {
    StrIntRoundTrip(t.id);
    TweetDoc(Str(Int(t.id)), t.text, t.createdAt)
  }

  /** The chat document; `now` stands for `datetime.now()`. */
  function ChatDocument(chat: Chat, latestId: Value, now: Timestamp): ChatDoc {
    ChatDoc(Str(chat.id), chat.title, now, Str(latestId))
  }

  /** The bot's fetch cursor as the Python value handed to `chat_document`. */
  function CursorValue(cursor: Option<int>): Value {
    match cursor
    case None => PyNone
    case Some(i) => Int(i)
  }

  /**
    Subscribing stores the cursor as text: `'None'` before the first fetch,
    otherwise a decimal that reads back as the cursor; the two never meet.
   */
  lemma ChatDocumentWatermark(chat: Chat, cursor: Option<int>, now: Timestamp)
    ensures ChatDocument(chat, CursorValue(cursor), now).latestId == "None" <==> cursor.None?
    ensures cursor.Some? ==> ParseInt(ChatDocument(chat, CursorValue(cursor), now).latestId) == cursor
  {
    if cursor.Some? {
      StrIntRoundTrip(cursor.value);
      NoneIsNotAnId(cursor.value);
    }
  }

  /** Distinct tweet ids give distinct keys. */
  lemma TweetDocumentKeysDistinct(a: Tweet, b: Tweet)
    ensures TweetDocument(a).id == TweetDocument(b).id <==> a.id == b.id
  {
    StrIntInjective(a.id, b.id);
  }

  // ---------------------------------------------------------------------------
  // Collection invariants

  /** Every document sits under the key equal to its own `_id`. */
  ghost predicate TweetsKeyed(m: map<string, TweetDoc>) {
    forall k :: k in m ==> m[k].id == k
  }

  ghost predicate ChatsKeyed(m: map<string, ChatDoc>) {
    forall k :: k in m ==> m[k].id == k
  }

  /** The unique index named "oldest" on `created_at`. */
  ghost predicate CreatedAtUnique(m: map<string, TweetDoc>) {
    forall k1, k2 :: k1 in m && k2 in m && k1 != k2 ==> m[k1].createdAt != m[k2].createdAt
  }

  /** A document other than the one under `key` already holds `createdAt`. */
  predicate CreatedAtTaken(m: map<string, TweetDoc>, key: string, createdAt: Timestamp) {
    exists k :: k in m && k != key && m[k].createdAt == createdAt
  }

  datatype Saved = Saved(tweets: map<string, TweetDoc>, ok: bool)

  /**
    `save_tweet`: an upsert keyed by `str(tweet.id)`; the unique index
    rejects it (`ok` false, nothing written) when another document holds the
    same `created_at`.
   */
  function PutTweet(m: map<string, TweetDoc>, t: Tweet): (r: Saved)
    ensures r.ok ==> TweetDocument(t).id in r.tweets && r.tweets[TweetDocument(t).id] == TweetDocument(t)
    ensures !r.ok ==> r.tweets == m
    ensures forall k :: k != TweetDocument(t).id ==> (k in r.tweets <==> k in m)
    ensures forall k :: k in m && k != TweetDocument(t).id ==> r.tweets[k] == m[k]
  {
    var d := TweetDocument(t);
    if CreatedAtTaken(m, d.id, d.createdAt) then Saved(m, false) else Saved(m[d.id := d], true)
  }

  /** The upsert keeps both collection invariants, and refuses exactly the clashes. */
  lemma PutTweetKeepsIndex(m: map<string, TweetDoc>, t: Tweet)
    requires TweetsKeyed(m) && CreatedAtUnique(m)
    ensures TweetsKeyed(PutTweet(m, t).tweets) && CreatedAtUnique(PutTweet(m, t).tweets)
    ensures !PutTweet(m, t).ok <==>
      exists other :: other in m && other != TweetDocument(t).id && m[other].createdAt == t.createdAt
  {
  }

  /** Saving the same tweet twice leaves the store as saving it once. */
  lemma PutTweetIdempotent(m: map<string, TweetDoc>, t: Tweet)
    ensures PutTweet(PutTweet(m, t).tweets, t) == PutTweet(m, t)
  {
    var r := PutTweet(m, t);
    if r.ok {
      var d := TweetDocument(t);
      assert !CreatedAtTaken(r.tweets, d.id, d.createdAt);
      assert r.tweets[d.id := d] == r.tweets;
    }
  }

  /** `save_chat`: an upsert keyed by `str(chat.id)`; there is no index on chats. */
  function PutChat(m: map<string, ChatDoc>, chat: Chat, latestId: Value, now: Timestamp): (r: map<string, ChatDoc>)
    ensures Str(chat.id) in r && r[Str(chat.id)].latestId == Str(latestId)
    ensures r[Str(chat.id)].title == chat.title && r[Str(chat.id)].subscribed == now
    ensures r.Keys == m.Keys + {Str(chat.id)}
    ensures forall k :: k in m && k != Str(chat.id) ==> r[k] == m[k]
  {
    m[Str(chat.id) := ChatDocument(chat, latestId, now)]
  }

  lemma PutChatIdempotent(m: map<string, ChatDoc>, chat: Chat, latestId: Value, now: Timestamp)
    requires ChatsKeyed(m)
    ensures ChatsKeyed(PutChat(m, chat, latestId, now))
    ensures PutChat(PutChat(m, chat, latestId, now), chat, latestId, now) == PutChat(m, chat, latestId, now)
  {
  }

  /** `remove_tweet` / `remove_chat`: delete the document whose `_id` is `str(id)`, if any. */
  function Removed<D>(m: map<string, D>, id: Value): (r: map<string, D>)
    ensures Str(id) !in r
    ensures Str(id) !in m ==> r == m
    ensures forall k :: k in m && k != Str(id) ==> k in r && r[k] == m[k]
    ensures r.Keys <= m.Keys
  {
    m - {Str(id)}
  }

  // ---------------------------------------------------------------------------
  // Query results

  /** Strictly ascending by `_id` as text, as a sorted find returns them; ids are unique. */
  ghost predicate SortedById(docs: seq<TweetDoc>) {
    forall i, j :: 0 <= i < j < |docs| ==> StrLt(docs[i].id, docs[j].id)
  }

  /** `docs` lists the collection `m`: every stored document exactly once. */
  ghost predicate ListsTweets(docs: seq<TweetDoc>, m: map<string, TweetDoc>) {
    && (forall i :: 0 <= i < |docs| ==> docs[i].id in m && m[docs[i].id] == docs[i])
    && (forall k :: k in m ==> exists i :: 0 <= i < |docs| && docs[i].id == k)
    && (forall i, j :: 0 <= i < j < |docs| ==> docs[i].id != docs[j].id)
  }

  ghost predicate ListsChats(docs: seq<ChatDoc>, m: map<string, ChatDoc>) {
    && (forall i :: 0 <= i < |docs| ==> docs[i].id in m && m[docs[i].id] == docs[i])
    && (forall k :: k in m ==> exists i :: 0 <= i < |docs| && docs[i].id == k)
    && (forall i, j :: 0 <= i < j < |docs| ==> docs[i].id != docs[j].id)
  }

  /**
    Part way through the sort: `docs` lists in ascending order every
    document of `m` whose key has left `rest`, each below every key still in
    `rest`.
   */
  ghost predicate SortedUpTo(docs: seq<TweetDoc>, rest: set<string>, m: map<string, TweetDoc>) {
    && rest <= m.Keys
    && (forall i :: 0 <= i < |docs| ==> docs[i].id in m && m[docs[i].id] == docs[i] && docs[i].id !in rest)
    && (forall k :: k in m && k !in rest ==> exists i :: 0 <= i < |docs| && docs[i].id == k)
    && SortedById(docs)
    && (forall i, k :: 0 <= i < |docs| && k in rest ==> StrLt(docs[i].id, k))
  }

  /** Taking the least key left keeps the partial listing sorted and complete. */
  lemma TakeLeast(docs: seq<TweetDoc>, rest: set<string>, m: map<string, TweetDoc>, key: string)
    requires TweetsKeyed(m) && SortedUpTo(docs, rest, m)
    requires key in rest && forall y :: y in rest ==> StrLe(key, y)
    ensures SortedUpTo(docs + [m[key]], rest - {key}, m)
  {
    var docs' := docs + [m[key]];
    var rest' := rest - {key};
    assert m[key].id == key;
    forall i | 0 <= i < |docs'| ensures docs'[i].id in m && m[docs'[i].id] == docs'[i] && docs'[i].id !in rest' {
      if i < |docs| { assert docs'[i] == docs[i]; }
    }
    forall k | k in m && k !in rest' ensures exists i :: 0 <= i < |docs'| && docs'[i].id == k {
      if k == key {
        assert docs'[|docs|].id == k;
      } else {
        var i :| 0 <= i < |docs| && docs[i].id == k;
        assert docs'[i] == docs[i];
      }
    }
    forall i, j | 0 <= i < j < |docs'| ensures StrLt(docs'[i].id, docs'[j].id) {
      assert docs'[i] == docs[i];
      if j < |docs| { assert docs'[j] == docs[j]; }
    }
    forall i, k | 0 <= i < |docs'| && k in rest' ensures StrLt(docs'[i].id, k) {
      if i < |docs| {
        assert docs'[i] == docs[i];
      } else {
        assert StrLe(key, k) && key != k;
      }
    }
  }

  lemma SortedUpToDone(docs: seq<TweetDoc>, m: map<string, TweetDoc>)
    requires SortedUpTo(docs, {}, m)
    ensures SortedById(docs) && ListsTweets(docs, m)
  {
    forall i, j | 0 <= i < j < |docs| ensures docs[i].id != docs[j].id {
      StrLtIrreflexive(docs[i].id);
    }
  }

  // ---------------------------------------------------------------------------
  // The store object

  class Database {
    var tweets: map<string, TweetDoc>
    var chats: map<string, ChatDoc>

    ghost predicate Valid()
      reads this
    {
      TweetsKeyed(tweets) && CreatedAtUnique(tweets) && ChatsKeyed(chats)
    }

    /** The store as `setup` leaves it: the database dropped, both collections empty. */
    constructor ()
      ensures Valid() && tweets == map[] && chats == map[]
    {
      tweets := map[];
      chats := map[];
    }

    method SaveTweet(tweet: Tweet) returns (ok: bool)
      requires Valid()
      modifies this
      ensures Valid()
      ensures Saved(tweets, ok) == PutTweet(old(tweets), tweet)
      ensures chats == old(chats)
    {
      PutTweetKeepsIndex(tweets, tweet);
      var document := TweetDocument(tweet);
      var tweetId := Str(Int(tweet.id));
      if CreatedAtTaken(tweets, tweetId, document.createdAt) {
        ok := false;
      } else {
        tweets := tweets[tweetId := document];
        ok := true;
      }
    }

    method SaveChat(chat: Chat, latestId: Value, now: Timestamp)
      requires Valid()
      modifies this
      ensures Valid()
      ensures chats == PutChat(old(chats), chat, latestId, now)
      ensures tweets == old(tweets)
    {
      var chatIdStr := Str(chat.id);
      var document := ChatDocument(chat, latestId, now);
      chats := chats[chatIdStr := document];
    }

    method RemoveChat(chatId: Value)
      requires Valid()
      modifies this
      ensures Valid()
      ensures chats == Removed(old(chats), chatId)
      ensures tweets == old(tweets)
    {
      chats := chats - {Str(chatId)};
    }

    method RemoveTweet(tweetId: Value)
      requires Valid()
      modifies this
      ensures Valid()
      ensures tweets == Removed(old(tweets), tweetId)
      ensures chats == old(chats)
    {
      tweets := tweets - {Str(tweetId)};
    }

    /** All stored tweets in ascending `_id` order, built by repeatedly taking the least key left. */
    method FindTweetsSorted() returns (docs: seq<TweetDoc>)
      requires Valid()
      ensures SortedById(docs) && ListsTweets(docs, tweets)
    {
      docs := [];
      var rest := tweets.Keys;
      while rest != {}
        invariant SortedUpTo(docs, rest, tweets)
        decreases rest
      {
        LeastExists(rest);
        var key :| key in rest && forall y :: y in rest ==> StrLe(key, y);
        TakeLeast(docs, rest, tweets, key);
        docs := docs + [tweets[key]];
        rest := rest - {key};
      }
      SortedUpToDone(docs, tweets);
    }

    /** `chats.find()`: every chat once, in the store's own (unspecified) order. */
    method FindChats() returns (docs: seq<ChatDoc>)
      requires Valid()
      ensures ListsChats(docs, chats)
    {
      docs := [];
      var rest := chats.Keys;
      while rest != {}
        invariant rest <= chats.Keys
        invariant forall i :: 0 <= i < |docs| ==> docs[i].id in chats && chats[docs[i].id] == docs[i] && docs[i].id !in rest
        invariant forall k :: k in chats && k !in rest ==> exists i :: 0 <= i < |docs| && docs[i].id == k
        invariant forall i, j :: 0 <= i < j < |docs| ==> docs[i].id != docs[j].id
        decreases rest
      {
        var key :| key in rest;
        ghost var before := docs;
        docs := docs + [chats[key]];
        rest := rest - {key};
        forall k | k in chats && k !in rest ensures exists i :: 0 <= i < |docs| && docs[i].id == k {
          if k == key {
            assert docs[|docs| - 1].id == k;
          } else {
            var i :| 0 <= i < |before| && before[i].id == k;
            assert docs[i] == before[i];
          }
        }
      }
    }
  }

  // ---------------------------------------------------------------------------
  // Connection string

  /**
    The connection string: the `mongodb://` scheme, then the credentials
    (user, password and `@`, each present only when configured), then the
    host with its port and database (each with its separator only when
    truthy). `quotePlus` stands for the URL quoting applied to the user
    and password; the other fields print like `str()`.
   */
  function Uri(user: string, pwd: string, host: Value, port: Value, db: Value, quotePlus: string -> string): (r: string)
    ensures |r| >= 10 && r[..10] == "mongodb://"
    ensures r[10..] == Credentials(user, pwd, quotePlus) + Location(host, port, db)
  {
    "mongodb://" + Credentials(user, pwd, quotePlus) + Location(host, port, db)
  }

  /** The `{user}{split1}{password}{at}` fields. */
  function Credentials(user: string, pwd: string, quotePlus: string -> string): string {
    (if user != "" then quotePlus(user) else "")
    + (if pwd != "" && user != "" then ":" else "")
    + (if user != "" then quotePlus(pwd) else "")
    + (if user != "" then "@" else "")
  }

  /**
    The `{host}{split2}{port}{split3}{database}` fields: a falsy port or
    database is still printed, only its separator is dropped.
   */
  function Location(host: Value, port: Value, db: Value): string {
    Str(host) + PortSeparator(port) + Str(port) + DbSeparator(db) + Str(db)
  }

  function PortSeparator(port: Value): string {
    if Truthy(port) then ":" else ""
  }

  function DbSeparator(db: Value): string {
    if Truthy(db) then "/" else ""
  }

  /**
    The credentials part: none without a user, `user@` with a user and an
    empty password, `user:password@` otherwise (given that quoting the
    empty text gives the empty text, as `quote_plus` does).
   */
  lemma UriCredentials(user: string, pwd: string, quotePlus: string -> string)
    requires quotePlus("") == ""
    ensures user == "" ==> Credentials(user, pwd, quotePlus) == ""
    ensures user != "" && pwd == "" ==> Credentials(user, pwd, quotePlus) == quotePlus(user) + "@"
    ensures user != "" && pwd != "" ==> Credentials(user, pwd, quotePlus) == quotePlus(user) + ":" + quotePlus(pwd) + "@"
  {
    if user != "" && pwd == "" {
      assert Credentials(user, pwd, quotePlus) == quotePlus(user) + "" + "" + "@";
    }
  }

  /**
    An `@` appears in the URI exactly when there is a user, provided the
    quoted parts and the location carry none of their own.
   */
  lemma UriAtIffUser(user: string, pwd: string, host: Value, port: Value, db: Value, quotePlus: string -> string)
    requires forall s :: '@' !in quotePlus(s)
    requires '@' !in Location(host, port, db)
    ensures '@' in Uri(user, pwd, host, port, db, quotePlus) <==> user != ""
  {
    var c := Credentials(user, pwd, quotePlus);
    var l := Location(host, port, db);
    InConcat('@', "mongodb://" + c, l);
    InConcat('@', "mongodb://", c);
    assert '@' !in "mongodb://" by { assert forall k :: 0 <= k < 10 ==> "mongodb://"[k] != '@'; }
    if user != "" {
      assert c[|c| - 1] == '@';
    } else {
      assert c == "";
    }
  }

  lemma InConcat(ch: char, a: string, b: string)
    ensures ch in a + b <==> ch in a || ch in b
  {
    if ch in a + b {
      var k :| 0 <= k < |a + b| && (a + b)[k] == ch;
      if k < |a| { assert a[k] == ch; } else { assert b[k - |a|] == ch; }
    }
    if ch in a {
      var k :| 0 <= k < |a| && a[k] == ch;
      assert (a + b)[k] == ch;
    }
    if ch in b {
      var k :| 0 <= k < |b| && b[k] == ch;
      assert (a + b)[|a| + k] == ch;
    }
  }

  /**
    In the location, a `:` appears exactly when the port is truthy and a
    `/` exactly when the database is, when the host, port and database
    texts carry neither character themselves.
   */
  lemma LocationSeparators(host: Value, port: Value, db: Value)
    requires ':' !in Str(host) && ':' !in Str(port) && ':' !in Str(db)
    requires '/' !in Str(host) && '/' !in Str(port) && '/' !in Str(db)
    ensures ':' in Location(host, port, db) <==> Truthy(port)
    ensures '/' in Location(host, port, db) <==> Truthy(db)
  {
  }

  /** The port and database texts are printed whether or not their separators are. */
  lemma LocationPrintsPortAndDb(host: Value, port: Value, db: Value)
    ensures |Location(host, port, db)| >= |Str(db)|
    ensures Location(host, port, db)[|Location(host, port, db)| - |Str(db)|..] == Str(db)
    ensures |Location(host, port, db)| >= |Str(host)| + |PortSeparator(port)| + |Str(port)|
    ensures Location(host, port, db)[|Str(host)| + |PortSeparator(port)|..][..|Str(port)|] == Str(port)
  {
    var before := Str(host) + PortSeparator(port);
    var after := DbSeparator(db) + Str(db);
    ConcatParts(before, Str(port), after);
    ConcatParts(before + Str(port) + DbSeparator(db), Str(db), "");
  }

  lemma ConcatParts(a: string, b: string, c: string)
    ensures (a + b + c)[|a|..][..|b|] == b
    ensures (a + b)[|a|..] == b
  {
    assert (a + b + c)[|a|..] == b + c;
  }
}
