/**
  What one `job_send` cycle computes (itcuabot/EpicBot.py, `job_send`):
  every stored tweet, in ascending `_id` order, is offered to every chat of
  the snapshot taken at the start of the cycle; a chat gets it when its
  snapshot watermark is unset, `'None'`, or below the tweet's id as TEXT;
  each delivery moves that chat's stored watermark to the tweet; the tweet
  is then removed whoever got it. A failed `sendMessage` raises and ends the
  cycle on the spot. The loops themselves are `Relay.EpicBot.JobSend`.
 */
module Dispatch {
  import opened PyValues
  import opened Store

  /** The outcome of sending a text to a chat: true when delivered, false when the send raises. */
  type Sender = (string, string) -> bool

  /** One message that went out: to which chat, which tweet, what text. */
  datatype Delivery = Delivery(chatId: string, tweetId: string, text: string)

  /**
    A chat is due a tweet when its watermark is unset (empty or `'None'`)
    or sorts below the tweet's id as text.
   */
  predicate ShouldSend(watermark: string, tweetId: string) {
    if watermark != "" && watermark != "None" then StrLt(watermark, tweetId) else true
  }

  /** The store and the messages sent so far; `failed` once a send has raised. */
  datatype Cycle = Cycle(tweets: map<string, TweetDoc>, chats: map<string, ChatDoc>, sent: seq<Delivery>, failed: bool)

  /** The chat document written after a delivery: same id and title, the tweet's id as watermark, stamped `now`. */
  function Written(c: ChatDoc, t: TweetDoc, now: Timestamp): ChatDoc {
    ChatDocument(Chat(Text(c.id), c.title), Text(t.id), now)
  }

  function Deliver(st: Cycle, t: TweetDoc, c: ChatDoc, now: Timestamp): Cycle {
    st.(chats := PutChat(st.chats, Chat(Text(c.id), c.title), Text(t.id), now),
        sent := st.sent + [Delivery(c.id, t.id, t.text)])
  }

  /** The inner loop: tweet `t` offered to the snapshot chats `cs`, in order. */
  function Fanout(st: Cycle, t: TweetDoc, cs: seq<ChatDoc>, send: Sender, now: Timestamp): Cycle
    decreases |cs|
  {
    if cs == [] then st
    else if !ShouldSend(cs[0].latestId, t.id) then Fanout(st, t, cs[1..], send, now)
    else if !send(cs[0].id, t.text) then st.(failed := true)
    else Fanout(Deliver(st, t, cs[0], now), t, cs[1..], send, now)
  }

  /** The outer loop over the tweets `ts` still to go. */
  function DispatchFrom(st: Cycle, ts: seq<TweetDoc>, cs: seq<ChatDoc>, send: Sender, now: Timestamp): Cycle
    decreases |ts|
  {
    if ts == [] then st
    else
      var after := Fanout(st, ts[0], cs, send, now);
      if after.failed then after
      else DispatchFrom(after.(tweets := Removed(after.tweets, Text(ts[0].id))), ts[1..], cs, send, now)
  }

  /** The inner loop from chat `j` on, unfolded by one chat. */
  lemma FanoutAt(st: Cycle, t: TweetDoc, cs: seq<ChatDoc>, j: nat, send: Sender, now: Timestamp)
    requires j < |cs|
    ensures Fanout(st, t, cs[j..], send, now) ==
      if !ShouldSend(cs[j].latestId, t.id) then Fanout(st, t, cs[j + 1..], send, now)
      else if !send(cs[j].id, t.text) then st.(failed := true)
      else Fanout(Deliver(st, t, cs[j], now), t, cs[j + 1..], send, now)
  {
    assert cs[j..][0] == cs[j] && cs[j..][1..] == cs[j + 1..];
  }

  /** The outer loop from tweet `i` on, unfolded by one tweet. */
  lemma DispatchAt(st: Cycle, ts: seq<TweetDoc>, i: nat, cs: seq<ChatDoc>, send: Sender, now: Timestamp)
    requires i < |ts|
    ensures DispatchFrom(st, ts[i..], cs, send, now) ==
      var after := Fanout(st, ts[i], cs, send, now);
      if after.failed then after
      else DispatchFrom(after.(tweets := Removed(after.tweets, Text(ts[i].id))), ts[i + 1..], cs, send, now)
  {
    assert ts[i..][0] == ts[i] && ts[i..][1..] == ts[i + 1..];
  }

  // ---------------------------------------------------------------------------
  // Reference definitions: who should get what, and where a watermark ends

  /** The deliveries one tweet calls for, in snapshot order. */
  function Wanted(t: TweetDoc, cs: seq<ChatDoc>): seq<Delivery>
    decreases |cs|
  {
    if cs == [] then []
    else (if ShouldSend(cs[0].latestId, t.id) then [Delivery(cs[0].id, t.id, t.text)] else []) + Wanted(t, cs[1..])
  }

  /** The deliveries a whole cycle calls for, tweet by tweet. */
  function Plan(ts: seq<TweetDoc>, cs: seq<ChatDoc>): seq<Delivery>
    decreases |ts|
  {
    if ts == [] then [] else Wanted(ts[0], cs) + Plan(ts[1..], cs)
  }

  /**
    The document of chat `c` after the tweets `ts`, starting from `cur`:
    every tweet its snapshot watermark is behind rewrites it.
   */
  function FinalChat(c: ChatDoc, ts: seq<TweetDoc>, cur: ChatDoc, now: Timestamp): ChatDoc
    decreases |ts|
  {
    if ts == [] then cur
    else FinalChat(c, ts[1..], if ShouldSend(c.latestId, ts[0].id) then Written(c, ts[0], now) else cur, now)
  }

  /** The ids of the first `k` tweets of `ts`. */
  function IdsBefore(ts: seq<TweetDoc>, k: nat): set<string> {
    set i | 0 <= i < k && i < |ts| :: ts[i].id
  }

  predicate DistinctChats(cs: seq<ChatDoc>) {
    forall i, j :: 0 <= i < j < |cs| ==> cs[i].id != cs[j].id
  }

  // ---------------------------------------------------------------------------
  // Who gets what

  /** A delivery is called for exactly when the chat's snapshot watermark is behind the tweet. */
  lemma {:induction false} WantedMembers(t: TweetDoc, cs: seq<ChatDoc>, d: Delivery)
    ensures d in Wanted(t, cs) <==>
      (exists j :: 0 <= j < |cs| && ShouldSend(cs[j].latestId, t.id) && d == Delivery(cs[j].id, t.id, t.text))
    decreases |cs|
  {
    if cs != [] {
      WantedMembers(t, cs[1..], d);
      if exists j :: 0 <= j < |cs| && ShouldSend(cs[j].latestId, t.id) && d == Delivery(cs[j].id, t.id, t.text) {
        var j :| 0 <= j < |cs| && ShouldSend(cs[j].latestId, t.id) && d == Delivery(cs[j].id, t.id, t.text);
        if j > 0 {
          assert cs[1..][j - 1] == cs[j];
        }
      }
      if d in Wanted(t, cs[1..]) {
        var j :| 0 <= j < |cs[1..]| && ShouldSend(cs[1..][j].latestId, t.id) && d == Delivery(cs[1..][j].id, t.id, t.text);
        assert cs[j + 1] == cs[1..][j];
      }
    }
  }

  /**
    Chat `c` is sent tweet `t` in a cycle that calls for the plan exactly
    when its snapshot watermark is empty or `'None'`, or the tweet's id is
    above it as text.
   */
  lemma {:induction false} PlanMembers(ts: seq<TweetDoc>, cs: seq<ChatDoc>, d: Delivery)
    ensures d in Plan(ts, cs) <==>
      (exists i, j :: 0 <= i < |ts| && 0 <= j < |cs| && ShouldSend(cs[j].latestId, ts[i].id)
        && d == Delivery(cs[j].id, ts[i].id, ts[i].text))
    decreases |ts|
  {
    if ts != [] {
      PlanMembers(ts[1..], cs, d);
      WantedMembers(ts[0], cs, d);
      if (exists i, j :: 0 <= i < |ts| && 0 <= j < |cs| && ShouldSend(cs[j].latestId, ts[i].id)
            && d == Delivery(cs[j].id, ts[i].id, ts[i].text)) {
        var i, j :| 0 <= i < |ts| && 0 <= j < |cs| && ShouldSend(cs[j].latestId, ts[i].id)
          && d == Delivery(cs[j].id, ts[i].id, ts[i].text);
        if i > 0 {
          assert ts[1..][i - 1] == ts[i];
        }
      }
      if d in Plan(ts[1..], cs) {
        var i, j :| 0 <= i < |ts[1..]| && 0 <= j < |cs| && ShouldSend(cs[j].latestId, ts[1..][i].id)
          && d == Delivery(cs[j].id, ts[1..][i].id, ts[1..][i].text);
        assert ts[i + 1] == ts[1..][i];
      }
    }
  }

  /**
    A chat subscribed while the cursor stood at a positive id is offered a
    post whose id has as many digits exactly when that id is above the
    cursor: the backlog the subscriber missed is skipped.
   */
  lemma SubscribeSkipsBacklog(chat: Chat, cursor: int, id: int, now: Timestamp)
    requires cursor > 0 && id > 0 && |Str(Int(cursor))| == |Str(Int(id))|
    ensures ShouldSend(ChatDocument(chat, Int(cursor), now).latestId, Str(Int(id))) <==> cursor < id
  {
    NoneIsNotAnId(cursor);
    DigitsOrder(cursor, id);
  }

  /**
    Across a change in digit count the text comparison and the numbers
    disagree both ways: watermark `'9'` withholds post 10, and watermark
    `'100'` lets the older post 95 through.
   */
  lemma ShouldSendAcrossDigitCounts()
    ensures 9 < 10 && !ShouldSend(Str(Int(9)), Str(Int(10)))
    ensures 95 < 100 && ShouldSend(Str(Int(100)), Str(Int(95)))
  {
    TextOrderIsNotNumberOrder();
    StrLtAsymmetric(Str(Int(10)), Str(Int(9)));
    assert Digits(9) == "9" && Digits(1) == "1" && Digits(0) == "0" && Digits(10) == "10";
    assert Str(Int(100)) == "100";
    assert Str(Int(95)) == "95";
  }

  /** One tweet's deliveries all carry that tweet, and go to distinct chats. */
  lemma {:induction false} WantedShape(t: TweetDoc, cs: seq<ChatDoc>)
    requires DistinctChats(cs)
    ensures forall p :: 0 <= p < |Wanted(t, cs)| ==> Wanted(t, cs)[p].tweetId == t.id
    ensures forall p, q :: 0 <= p < q < |Wanted(t, cs)| ==> Wanted(t, cs)[p].chatId != Wanted(t, cs)[q].chatId
    decreases |cs|
  {
    if cs != [] {
      var rest := cs[1..];
      DistinctTail(cs);
      WantedShape(t, rest);
      var w := Wanted(t, cs);
      var tail := Wanted(t, rest);
      forall q | 0 <= q < |tail| ensures tail[q].chatId != cs[0].id {
        WantedMembers(t, rest, tail[q]);
        var j :| 0 <= j < |rest| && ShouldSend(rest[j].latestId, t.id) && tail[q] == Delivery(rest[j].id, t.id, t.text);
        assert rest[j] == cs[j + 1];
      }
    }
  }

  /**
    Along `plan` the tweet ids never decrease, and for any one chat they
    strictly increase.
   */
  ghost predicate Ascending(plan: seq<Delivery>) {
    && (forall p, q :: 0 <= p < q < |plan| ==> StrLe(plan[p].tweetId, plan[q].tweetId))
    && (forall p, q :: 0 <= p < q < |plan| && plan[p].chatId == plan[q].chatId ==> StrLt(plan[p].tweetId, plan[q].tweetId))
  }

  /**
    Tweets go out in ascending `_id` order: along the plan the tweet ids
    never decrease, and for any one chat they strictly increase, so each
    watermark write moves that chat's watermark up.
   */
  lemma {:induction false} PlanAscending(ts: seq<TweetDoc>, cs: seq<ChatDoc>)
    requires SortedById(ts) && DistinctChats(cs)
    ensures Ascending(Plan(ts, cs))
    decreases |ts|
  {
    if ts != [] {
      var rest := ts[1..];
      assert SortedById(rest) by {
        forall i, j | 0 <= i < j < |rest| ensures StrLt(rest[i].id, rest[j].id) {
          assert rest[i] == ts[i + 1] && rest[j] == ts[j + 1];
        }
      }
      PlanAscending(rest, cs);
      WantedShape(ts[0], cs);
      PlanAbove(ts, cs);
      assert Plan(ts, cs) == Wanted(ts[0], cs) + Plan(rest, cs);
      AscendingConcat(Wanted(ts[0], cs), Plan(rest, cs), ts[0].id);
    }
  }

  /** Every delivery planned for the later tweets carries an id above the first tweet's. */
  lemma PlanAbove(ts: seq<TweetDoc>, cs: seq<ChatDoc>)
    requires ts != [] && SortedById(ts)
    ensures forall q :: 0 <= q < |Plan(ts[1..], cs)| ==> StrLt(ts[0].id, Plan(ts[1..], cs)[q].tweetId)
  {
    var rest := ts[1..];
    var later := Plan(rest, cs);
    forall q | 0 <= q < |later| ensures StrLt(ts[0].id, later[q].tweetId) {
      PlanMembers(rest, cs, later[q]);
      var i, j :| 0 <= i < |rest| && 0 <= j < |cs| && ShouldSend(cs[j].latestId, rest[i].id)
        && later[q] == Delivery(cs[j].id, rest[i].id, rest[i].text);
      assert rest[i] == ts[i + 1];
    }
  }

  /** One tweet's deliveries to distinct chats, followed by an ascending plan of higher ids, is ascending. */
  lemma AscendingConcat(w: seq<Delivery>, later: seq<Delivery>, id: string)
    requires forall p :: 0 <= p < |w| ==> w[p].tweetId == id
    requires forall p, q :: 0 <= p < q < |w| ==> w[p].chatId != w[q].chatId
    requires forall q :: 0 <= q < |later| ==> StrLt(id, later[q].tweetId)
    requires Ascending(later)
    ensures Ascending(w + later)
  {
    var plan := w + later;
    forall p, q | 0 <= p < q < |plan| ensures StrLe(plan[p].tweetId, plan[q].tweetId)
      && (plan[p].chatId == plan[q].chatId ==> StrLt(plan[p].tweetId, plan[q].tweetId))
    {
      if q < |w| {
        assert plan[p] == w[p] && plan[q] == w[q];
      } else if p < |w| {
        assert plan[p] == w[p] && plan[q] == later[q - |w|];
      } else {
        assert plan[p] == later[p - |w|] && plan[q] == later[q - |w|];
      }
    }
  }

  /**
    A chat whose stored watermark is the `'None'` sentinel (it subscribed
    before the first fetch) is sent every pending tweet.
   */
  lemma SentinelGetsEverything(ts: seq<TweetDoc>, cs: seq<ChatDoc>, j: nat)
    requires j < |cs| && cs[j].latestId == "None"
    ensures forall i :: 0 <= i < |ts| ==> Delivery(cs[j].id, ts[i].id, ts[i].text) in Plan(ts, cs)
  {
    forall i | 0 <= i < |ts| ensures Delivery(cs[j].id, ts[i].id, ts[i].text) in Plan(ts, cs) {
      PlanMembers(ts, cs, Delivery(cs[j].id, ts[i].id, ts[i].text));
    }
  }

  /** Some chat the tweet passes refuses it: `sendMessage` raises for that chat. */
  ghost predicate RoundFails(t: TweetDoc, cs: seq<ChatDoc>, send: Sender) {
    exists j :: 0 <= j < |cs| && ShouldSend(cs[j].latestId, t.id) && !send(cs[j].id, t.text)
  }

  /** The index of the first tweet whose round has a refused send; `|ts|` when there is none. */
  ghost function FailingRound(ts: seq<TweetDoc>, cs: seq<ChatDoc>, send: Sender): (k: nat)
    ensures k <= |ts|
    decreases |ts|
  {
    if ts == [] then 0
    else if RoundFails(ts[0], cs, send) then 0
    else 1 + FailingRound(ts[1..], cs, send)
  }

  /**
    How many chats of the snapshot the inner loop gets through for tweet
    `t` before a send raises: all of them when none does.
   */
  ghost function Reached(t: TweetDoc, cs: seq<ChatDoc>, send: Sender): (n: nat)
    ensures n <= |cs|
    decreases |cs|
  {
    if cs == [] then 0
    else if ShouldSend(cs[0].latestId, t.id) && !send(cs[0].id, t.text) then 0
    else 1 + Reached(t, cs[1..], send)
  }

  /**
    `Reached` stops at the first chat that the tweet passes and that refuses
    it: every earlier chat took it or was not due it, and it stops short of
    the end exactly when the round fails.
   */
  lemma {:induction false} ReachedIsFirst(t: TweetDoc, cs: seq<ChatDoc>, send: Sender)
    ensures var n := Reached(t, cs, send);
      && (forall j :: 0 <= j < n ==> !ShouldSend(cs[j].latestId, t.id) || send(cs[j].id, t.text))
      && (n < |cs| ==> ShouldSend(cs[n].latestId, t.id) && !send(cs[n].id, t.text))
      && (n < |cs| <==> RoundFails(t, cs, send))
    decreases |cs|
  {
    var n := Reached(t, cs, send);
    if cs != [] && !(ShouldSend(cs[0].latestId, t.id) && !send(cs[0].id, t.text)) {
      var rest := cs[1..];
      ReachedIsFirst(t, rest, send);
      forall j | 0 <= j < n ensures !ShouldSend(cs[j].latestId, t.id) || send(cs[j].id, t.text) {
        if j > 0 { assert cs[j] == rest[j - 1]; }
      }
      if n < |cs| { assert cs[n] == rest[n - 1]; }
      if RoundFails(t, cs, send) {
        var j :| 0 <= j < |cs| && ShouldSend(cs[j].latestId, t.id) && !send(cs[j].id, t.text);
        assert rest[j - 1] == cs[j];
      }
    }
  }

  /** `FailingRound` is the first round with a refused send: every earlier round goes through. */
  lemma {:induction false} FailingRoundIsFirst(ts: seq<TweetDoc>, cs: seq<ChatDoc>, send: Sender)
    ensures forall i :: 0 <= i < FailingRound(ts, cs, send) ==> !RoundFails(ts[i], cs, send)
    ensures FailingRound(ts, cs, send) < |ts| ==> RoundFails(ts[FailingRound(ts, cs, send)], cs, send)
    decreases |ts|
  {
    if ts != [] && !RoundFails(ts[0], cs, send) {
      FailingRoundIsFirst(ts[1..], cs, send);
      forall i | 0 <= i < FailingRound(ts, cs, send) ensures !RoundFails(ts[i], cs, send) {
        if i > 0 { assert ts[i] == ts[1..][i - 1]; }
      }
    }
  }

  /** A round fails exactly when a delivery it plans is refused. */
  lemma RoundFailsPlanned(t: TweetDoc, cs: seq<ChatDoc>, send: Sender)
    ensures RoundFails(t, cs, send) <==> exists d :: d in Wanted(t, cs) && !send(d.chatId, d.text)
  {
    if RoundFails(t, cs, send) {
      var j :| 0 <= j < |cs| && ShouldSend(cs[j].latestId, t.id) && !send(cs[j].id, t.text);
      WantedMembers(t, cs, Delivery(cs[j].id, t.id, t.text));
    }
    if exists d :: d in Wanted(t, cs) && !send(d.chatId, d.text) {
      var d :| d in Wanted(t, cs) && !send(d.chatId, d.text);
      WantedMembers(t, cs, d);
    }
  }

  // ---------------------------------------------------------------------------
  // What the loops do

  /** The inner loop sends a prefix of what the tweet calls for, all of it unless a send raised. */
  lemma {:induction false} FanoutSent(st: Cycle, t: TweetDoc, cs: seq<ChatDoc>, send: Sender, now: Timestamp)
    requires !st.failed
    ensures var r := Fanout(st, t, cs, send, now);
      r.tweets == st.tweets && SentWithin(st.sent, r.sent, Wanted(t, cs))
      && (!r.failed ==> r.sent == st.sent + Wanted(t, cs))
      && (r.failed ==> |r.sent| < |st.sent| + |Wanted(t, cs)|)
    decreases |cs|
  {
    if cs != [] {
      var w := if ShouldSend(cs[0].latestId, t.id) then [Delivery(cs[0].id, t.id, t.text)] else [];
      assert Wanted(t, cs) == w + Wanted(t, cs[1..]);
      if !ShouldSend(cs[0].latestId, t.id) {
        FanoutSent(st, t, cs[1..], send, now);
      } else if send(cs[0].id, t.text) {
        var st' := Deliver(st, t, cs[0], now);
        FanoutSent(st', t, cs[1..], send, now);
        ExtendPrefix(st.sent, w, Fanout(st, t, cs, send, now).sent, Wanted(t, cs[1..]));
      }
    }
  }

  /**
    The inner loop touches only the chats of the snapshot: each chat before
    the first refused send that the tweet passes is rewritten for it, and
    every other chat, the refusing one included, keeps its document.
   */
  lemma {:induction false} FanoutChats(st: Cycle, t: TweetDoc, cs: seq<ChatDoc>, send: Sender, now: Timestamp)
    requires DistinctChats(cs)
    requires forall i :: 0 <= i < |cs| ==> cs[i].id in st.chats
    ensures var r := Fanout(st, t, cs, send, now);
      && r.chats.Keys == st.chats.Keys
      && (forall k :: k in st.chats && k !in ChatIds(cs) ==> r.chats[k] == st.chats[k])
      && (forall i :: 0 <= i < |cs| ==>
            r.chats[cs[i].id] ==
              if i < Reached(t, cs, send) && ShouldSend(cs[i].latestId, t.id) then Written(cs[i], t, now) else st.chats[cs[i].id])
      && (!r.failed ==> Reached(t, cs, send) == |cs|)
      && (!r.failed ==> forall i :: 0 <= i < |cs| ==>
            r.chats[cs[i].id] == if ShouldSend(cs[i].latestId, t.id) then Written(cs[i], t, now) else st.chats[cs[i].id])
    decreases |cs|
  {
    if cs != [] {
      var rest := cs[1..];
      DistinctTail(cs);
      var st' := if !ShouldSend(cs[0].latestId, t.id) then st else Deliver(st, t, cs[0], now);
      if ShouldSend(cs[0].latestId, t.id) && !send(cs[0].id, t.text) {
      } else {
        FanoutChats(st', t, rest, send, now);
        var r := Fanout(st, t, cs, send, now);
        assert r == Fanout(st', t, rest, send, now);
        forall i | 0 <= i < |cs|
          ensures r.chats[cs[i].id] ==
            if i < Reached(t, cs, send) && ShouldSend(cs[i].latestId, t.id) then Written(cs[i], t, now) else st.chats[cs[i].id]
        {
          if i > 0 {
            assert cs[i] == rest[i - 1];
          }
        }
      }
    }
  }

  /**
    The inner loop sends exactly the deliveries the tweet calls for among
    the chats it reached, so a chat is rewritten in a round exactly when
    its message went out.
   */
  lemma {:induction false} FanoutSendsReached(st: Cycle, t: TweetDoc, cs: seq<ChatDoc>, send: Sender, now: Timestamp)
    ensures Fanout(st, t, cs, send, now).sent == st.sent + Wanted(t, cs[..Reached(t, cs, send)])
    decreases |cs|
  {
    var n := Reached(t, cs, send);
    if cs == [] || (ShouldSend(cs[0].latestId, t.id) && !send(cs[0].id, t.text)) {
      assert cs[..n] == [];
    } else {
      var st' := if ShouldSend(cs[0].latestId, t.id) then Deliver(st, t, cs[0], now) else st;
      FanoutSendsReached(st', t, cs[1..], send, now);
      assert cs[..n][0] == cs[0] && cs[..n][1..] == cs[1..][..n - 1];
    }
  }

  /** Dropping the first chat of a snapshot keeps it duplicate-free, and the first chat is not among the rest. */
  lemma DistinctTail(cs: seq<ChatDoc>)
    requires cs != [] && DistinctChats(cs)
    ensures DistinctChats(cs[1..])
    ensures forall i :: 0 <= i < |cs[1..]| ==> cs[1..][i] == cs[i + 1] && cs[i + 1].id != cs[0].id
    ensures ChatIds(cs) == {cs[0].id} + ChatIds(cs[1..]) && cs[0].id !in ChatIds(cs[1..])
  {
    var rest := cs[1..];
    forall i, j | 0 <= i < j < |rest| ensures rest[i].id != rest[j].id {
      assert rest[i] == cs[i + 1] && rest[j] == cs[j + 1];
    }
    forall k | k in ChatIds(cs) ensures k in {cs[0].id} + ChatIds(rest) {
      var i :| 0 <= i < |cs| && cs[i].id == k;
      if i > 0 { assert rest[i - 1] == cs[i]; }
    }
    forall k | k in ChatIds(rest) ensures k in ChatIds(cs) && k != cs[0].id {
      var i :| 0 <= i < |rest| && rest[i].id == k;
      assert rest[i] == cs[i + 1];
    }
  }

  function ChatIds(cs: seq<ChatDoc>): set<string> {
    set i | 0 <= i < |cs| :: cs[i].id
  }

  /** The cycle sends a prefix of the plan, all of it unless a send raised. */
  lemma {:induction false} DispatchSent(st: Cycle, ts: seq<TweetDoc>, cs: seq<ChatDoc>, send: Sender, now: Timestamp)
    requires !st.failed
    ensures var r := DispatchFrom(st, ts, cs, send, now);
      SentWithin(st.sent, r.sent, Plan(ts, cs)) && (!r.failed ==> r.sent == st.sent + Plan(ts, cs))
    decreases |ts|
  {
    if ts != [] {
      var w := Wanted(ts[0], cs);
      var p := Plan(ts[1..], cs);
      assert Plan(ts, cs) == w + p;
      FanoutSent(st, ts[0], cs, send, now);
      var after := Fanout(st, ts[0], cs, send, now);
      if after.failed {
        PrefixOfLonger(st.sent, after.sent, w, p);
      } else {
        var st' := after.(tweets := Removed(after.tweets, Text(ts[0].id)));
        DispatchSent(st', ts[1..], cs, send, now);
        ExtendPrefix(st.sent, w, DispatchFrom(st', ts[1..], cs, send, now).sent, p);
      }
    }
  }

  /** `r` is `before` followed by a prefix of `p`. */
  ghost predicate SentWithin(before: seq<Delivery>, r: seq<Delivery>, p: seq<Delivery>) {
    before <= r && r[|before|..] <= p
  }

  lemma ExtendPrefix(a: seq<Delivery>, w: seq<Delivery>, r: seq<Delivery>, p: seq<Delivery>)
    requires SentWithin(a + w, r, p)
    ensures SentWithin(a, r, w + p)
    ensures a + w + p == a + (w + p)
  {
    assert r[|a|..] == w + r[|a + w|..];
  }

  /** The inner loop fails exactly when some chat the tweet passes refuses it. */
  lemma {:induction false} FanoutFails(st: Cycle, t: TweetDoc, cs: seq<ChatDoc>, send: Sender, now: Timestamp)
    ensures Fanout(st, t, cs, send, now).failed <==> st.failed || RoundFails(t, cs, send)
    decreases |cs|
  {
    if cs != [] {
      var rest := cs[1..];
      assert forall j :: 0 <= j < |rest| ==> rest[j] == cs[j + 1];
      assert RoundFails(t, cs, send) <==>
        (ShouldSend(cs[0].latestId, t.id) && !send(cs[0].id, t.text)) || RoundFails(t, rest, send) by {
        if RoundFails(t, cs, send) {
          var j :| 0 <= j < |cs| && ShouldSend(cs[j].latestId, t.id) && !send(cs[j].id, t.text);
          if j > 0 { assert rest[j - 1] == cs[j]; }
        }
        if RoundFails(t, rest, send) {
          var j :| 0 <= j < |rest| && ShouldSend(rest[j].latestId, t.id) && !send(rest[j].id, t.text);
          assert cs[j + 1] == rest[j];
        }
      }
      if !ShouldSend(cs[0].latestId, t.id) {
        FanoutFails(st, t, rest, send, now);
      } else if send(cs[0].id, t.text) {
        FanoutFails(Deliver(st, t, cs[0], now), t, rest, send, now);
      }
    }
  }

  lemma PrefixOfLonger(a: seq<Delivery>, r: seq<Delivery>, w: seq<Delivery>, p: seq<Delivery>)
    requires SentWithin(a, r, w)
    ensures SentWithin(a, r, w + p)
  {
  }

  lemma IdsCons(ts: seq<TweetDoc>, k: nat)
    requires k < |ts|
    ensures IdsBefore(ts, k + 1) == {ts[0].id} + IdsBefore(ts[1..], k)
  {
    assert forall i :: 0 <= i < k && i < |ts[1..]| ==> ts[1..][i] == ts[i + 1];
  }

  /**
    The cycle fails exactly when some planned delivery is refused, that is
    when some round fails.
   */
  lemma {:induction false} DispatchFails(st: Cycle, ts: seq<TweetDoc>, cs: seq<ChatDoc>, send: Sender, now: Timestamp)
    requires !st.failed
    ensures DispatchFrom(st, ts, cs, send, now).failed <==> FailingRound(ts, cs, send) < |ts|
    ensures DispatchFrom(st, ts, cs, send, now).failed <==> exists d :: d in Plan(ts, cs) && !send(d.chatId, d.text)
    decreases |ts|
  {
    if ts != [] {
      FanoutFails(st, ts[0], cs, send, now);
      var after := Fanout(st, ts[0], cs, send, now);
      if !after.failed {
        DispatchFails(after.(tweets := Removed(after.tweets, Text(ts[0].id))), ts[1..], cs, send, now);
      }
    }
    FailingRoundPlanned(ts, cs, send);
  }

  /** Some round fails exactly when some planned delivery is refused. */
  lemma FailingRoundPlanned(ts: seq<TweetDoc>, cs: seq<ChatDoc>, send: Sender)
    ensures FailingRound(ts, cs, send) < |ts| <==> exists d :: d in Plan(ts, cs) && !send(d.chatId, d.text)
  {
    FailingRoundIsFirst(ts, cs, send);
    var k := FailingRound(ts, cs, send);
    if k < |ts| {
      var j :| 0 <= j < |cs| && ShouldSend(cs[j].latestId, ts[k].id) && !send(cs[j].id, ts[k].text);
      PlanMembers(ts, cs, Delivery(cs[j].id, ts[k].id, ts[k].text));
    }
    if exists d :: d in Plan(ts, cs) && !send(d.chatId, d.text) {
      var d :| d in Plan(ts, cs) && !send(d.chatId, d.text);
      PlanMembers(ts, cs, d);
      var i, j :| 0 <= i < |ts| && 0 <= j < |cs| && ShouldSend(cs[j].latestId, ts[i].id) && d == Delivery(cs[j].id, ts[i].id, ts[i].text);
      assert RoundFails(ts[i], cs, send);
    }
  }

  /**
    Each tweet is removed once it has been offered to every chat, whoever
    got it: the tweets before the first failing round are gone, and all of
    them when no round fails.
   */
  lemma {:induction false} DispatchRemoves(st: Cycle, ts: seq<TweetDoc>, cs: seq<ChatDoc>, send: Sender, now: Timestamp)
    requires !st.failed
    ensures DispatchFrom(st, ts, cs, send, now).tweets == st.tweets - IdsBefore(ts, FailingRound(ts, cs, send))
    decreases |ts|
  {
    var r := DispatchFrom(st, ts, cs, send, now);
    if ts == [] {
      assert r.tweets == st.tweets - IdsBefore(ts, 0);
    } else {
      FanoutSent(st, ts[0], cs, send, now);
      FanoutFails(st, ts[0], cs, send, now);
      var after := Fanout(st, ts[0], cs, send, now);
      if after.failed {
        assert r.tweets == st.tweets - IdsBefore(ts, 0);
      } else {
        var st' := after.(tweets := Removed(after.tweets, Text(ts[0].id)));
        DispatchRemoves(st', ts[1..], cs, send, now);
        var k := FailingRound(ts[1..], cs, send);
        IdsCons(ts, k);
        assert r.tweets == st.tweets - IdsBefore(ts, k + 1);
      }
    }
  }

  /**
    When the cycle fails, what went out is the plan of the rounds before
    the failing one followed by a proper prefix of the failing round's own
    deliveries.
   */
  lemma {:induction false} DispatchSentOnFailure(st: Cycle, ts: seq<TweetDoc>, cs: seq<ChatDoc>, send: Sender, now: Timestamp)
    requires !st.failed
    requires FailingRound(ts, cs, send) < |ts|
    ensures var r := DispatchFrom(st, ts, cs, send, now); var k := FailingRound(ts, cs, send);
      SentWithin(st.sent + Plan(ts[..k], cs), r.sent, Wanted(ts[k], cs))
      && |r.sent| < |st.sent + Plan(ts[..k], cs)| + |Wanted(ts[k], cs)|
    decreases |ts|
  {
    FanoutSent(st, ts[0], cs, send, now);
    FanoutFails(st, ts[0], cs, send, now);
    var after := Fanout(st, ts[0], cs, send, now);
    if RoundFails(ts[0], cs, send) {
      assert ts[..0] == [] && st.sent + Plan([], cs) == st.sent;
    } else {
      var st' := after.(tweets := Removed(after.tweets, Text(ts[0].id)));
      DispatchSentOnFailure(st', ts[1..], cs, send, now);
      var k := FailingRound(ts, cs, send);
      PlanBefore(ts, cs, k);
      Append3(st.sent, Wanted(ts[0], cs), Plan(ts[1..][..k - 1], cs));
    }
  }

  /** The plan of the first `k` tweets, unfolded by one tweet. */
  lemma PlanBefore(ts: seq<TweetDoc>, cs: seq<ChatDoc>, k: nat)
    requires 0 < k <= |ts|
    ensures Plan(ts[..k], cs) == Wanted(ts[0], cs) + Plan(ts[1..][..k - 1], cs)
    ensures k < |ts| ==> ts[1..][k - 1] == ts[k]
  {
    assert ts[..k][0] == ts[0] && ts[..k][1..] == ts[1..][..k - 1];
  }

  lemma Append3(a: seq<Delivery>, b: seq<Delivery>, c: seq<Delivery>)
    ensures a + b + c == a + (b + c)
  {
  }

  /** Over the whole cycle, each snapshot chat ends as `FinalChat` says; no other chat changes. */
  lemma {:induction false} DispatchChats(st: Cycle, ts: seq<TweetDoc>, cs: seq<ChatDoc>, send: Sender, now: Timestamp)
    requires DistinctChats(cs)
    requires forall i :: 0 <= i < |cs| ==> cs[i].id in st.chats
    ensures var r := DispatchFrom(st, ts, cs, send, now);
      && r.chats.Keys == st.chats.Keys
      && (forall k :: k in st.chats && k !in ChatIds(cs) ==> r.chats[k] == st.chats[k])
      && (!r.failed ==> forall i :: 0 <= i < |cs| ==> r.chats[cs[i].id] == FinalChat(cs[i], ts, st.chats[cs[i].id], now))
    decreases |ts|
  {
    if ts != [] {
      FanoutChats(st, ts[0], cs, send, now);
      var after := Fanout(st, ts[0], cs, send, now);
      if !after.failed {
        var st' := after.(tweets := Removed(after.tweets, Text(ts[0].id)));
        DispatchChats(st', ts[1..], cs, send, now);
      }
    }
  }

  /**
    When the cycle fails, each snapshot chat holds what the rounds before
    the failing one left it, unless the failing round itself reached it
    before the refused send and rewrote it for that tweet.
   */
  lemma {:induction false} DispatchChatsOnFailure(st: Cycle, ts: seq<TweetDoc>, cs: seq<ChatDoc>, send: Sender, now: Timestamp)
    requires !st.failed
    requires DistinctChats(cs)
    requires forall i :: 0 <= i < |cs| ==> cs[i].id in st.chats
    requires FailingRound(ts, cs, send) < |ts|
    ensures var r := DispatchFrom(st, ts, cs, send, now); var k := FailingRound(ts, cs, send);
      r.chats.Keys == st.chats.Keys && forall i :: 0 <= i < |cs| ==>
        r.chats[cs[i].id] ==
          if i < Reached(ts[k], cs, send) && ShouldSend(cs[i].latestId, ts[k].id) then Written(cs[i], ts[k], now)
          else FinalChat(cs[i], ts[..k], st.chats[cs[i].id], now)
    decreases |ts|
  {
    FanoutChats(st, ts[0], cs, send, now);
    FanoutFails(st, ts[0], cs, send, now);
    var after := Fanout(st, ts[0], cs, send, now);
    if RoundFails(ts[0], cs, send) {
      assert ts[..0] == [];
    } else {
      var st' := after.(tweets := Removed(after.tweets, Text(ts[0].id)));
      DispatchChatsOnFailure(st', ts[1..], cs, send, now);
      var k := FailingRound(ts, cs, send);
      forall i | 0 <= i < |cs|
        ensures FinalChat(cs[i], ts[..k], st.chats[cs[i].id], now) == FinalChat(cs[i], ts[1..][..k - 1], st'.chats[cs[i].id], now)
      {
        FinalChatBefore(cs[i], ts, k, st.chats[cs[i].id], now);
      }
    }
  }

  /** A chat's document after the first `k` tweets, unfolded by one tweet. */
  lemma FinalChatBefore(c: ChatDoc, ts: seq<TweetDoc>, k: nat, cur: ChatDoc, now: Timestamp)
    requires 0 < k <= |ts|
    ensures FinalChat(c, ts[..k], cur, now) ==
      FinalChat(c, ts[1..][..k - 1], if ShouldSend(c.latestId, ts[0].id) then Written(c, ts[0], now) else cur, now)
    ensures k < |ts| ==> ts[1..][k - 1] == ts[k]
  {
    assert ts[..k][0] == ts[0] && ts[..k][1..] == ts[1..][..k - 1];
  }

  // ---------------------------------------------------------------------------
  // Watermarks

  /**
    A chat's final document: untouched when no tweet is above its snapshot
    watermark; otherwise rewritten (same id and title, stamped `now`) with
    the watermark on a tweet above it that no other such tweet exceeds —
    the largest pending id, since tweets go out in ascending order.
   */
  lemma {:induction false} FinalChatWatermark(c: ChatDoc, ts: seq<TweetDoc>, cur: ChatDoc, now: Timestamp)
    requires SortedById(ts)
    ensures (forall i :: 0 <= i < |ts| ==> !ShouldSend(c.latestId, ts[i].id)) ==> FinalChat(c, ts, cur, now) == cur
    ensures (exists i :: 0 <= i < |ts| && ShouldSend(c.latestId, ts[i].id)) ==>
      var f := FinalChat(c, ts, cur, now);
      && f.id == c.id && f.title == c.title && f.subscribed == now
      && (exists i :: 0 <= i < |ts| && ShouldSend(c.latestId, ts[i].id) && f.latestId == ts[i].id)
      && (forall i :: 0 <= i < |ts| && ShouldSend(c.latestId, ts[i].id) ==> StrLe(ts[i].id, f.latestId))
    decreases |ts|
  {
    if ts != [] {
      var rest := ts[1..];
      assert forall i :: 0 <= i < |rest| ==> rest[i] == ts[i + 1];
      var next := if ShouldSend(c.latestId, ts[0].id) then Written(c, ts[0], now) else cur;
      FinalChatWatermark(c, rest, next, now);
      var f := FinalChat(c, ts, cur, now);
      if exists i :: 0 <= i < |rest| && ShouldSend(c.latestId, rest[i].id) {
        var j :| 0 <= j < |rest| && ShouldSend(c.latestId, rest[j].id) && f.latestId == rest[j].id;
        assert StrLt(ts[0].id, f.latestId) by { assert rest[j] == ts[j + 1]; }
      } else if ShouldSend(c.latestId, ts[0].id) {
        assert f == next;
        forall i | 0 <= i < |ts| && ShouldSend(c.latestId, ts[i].id) ensures StrLe(ts[i].id, f.latestId) {
        }
      }
    }
  }

  /**
    A watermark never moves back: a chat whose snapshot watermark is a real
    id ends on that id or on an id above it as text.
   */
  lemma WatermarkNeverDecreases(c: ChatDoc, ts: seq<TweetDoc>, now: Timestamp)
    requires SortedById(ts)
    requires c.latestId != "" && c.latestId != "None"
    ensures StrLe(c.latestId, FinalChat(c, ts, c, now).latestId)
  {
    FinalChatWatermark(c, ts, c, now);
    if exists i :: 0 <= i < |ts| && ShouldSend(c.latestId, ts[i].id) {
      var f := FinalChat(c, ts, c, now);
      var i :| 0 <= i < |ts| && ShouldSend(c.latestId, ts[i].id) && f.latestId == ts[i].id;
    }
  }

  // ---------------------------------------------------------------------------
  // One whole cycle over the store's own snapshot

  /**
    A cycle over the sorted tweets `ts` and the chats `cs` of the store
    fails exactly when a planned delivery is refused. Without a failure it
    sends exactly the plan, empties the tweet collection and leaves each
    snapshot chat as `FinalChat` says. With one, `k` being the first round
    with a refused send, the rounds before `k` went out in full, round `k`
    went out in part, the tweets before `k` are gone and tweet `k` and the
    later ones remain. The chat keys never change.
   */
  lemma SendCycle(T: map<string, TweetDoc>, C: map<string, ChatDoc>, ts: seq<TweetDoc>, cs: seq<ChatDoc>, send: Sender, now: Timestamp)
    requires SortedById(ts) && ListsTweets(ts, T) && ListsChats(cs, C)
    ensures var r := DispatchFrom(Cycle(T, C, [], false), ts, cs, send, now);
      && r.chats.Keys == C.Keys
      && r.sent <= Plan(ts, cs)
      && (r.failed <==> exists d :: d in Plan(ts, cs) && !send(d.chatId, d.text))
      && (!r.failed ==> r.sent == Plan(ts, cs) && r.tweets == map[])
      && (!r.failed ==> forall i :: 0 <= i < |cs| ==> r.chats[cs[i].id] == FinalChat(cs[i], ts, cs[i], now))
  {
    var st := Cycle(T, C, [], false);
    var r := DispatchFrom(st, ts, cs, send, now);
    DispatchSent(st, ts, cs, send, now);
    assert r.sent[|st.sent|..] == r.sent;
    DispatchChats(st, ts, cs, send, now);
    DispatchRemoves(st, ts, cs, send, now);
    DispatchFails(st, ts, cs, send, now);
    if !r.failed {
      assert IdsBefore(ts, |ts|) == T.Keys;
    }
  }

  /**
    A failed cycle: `k`, the first round with a refused send, is a real
    tweet; the plan of the tweets before it went out in full, followed by a
    proper prefix of tweet `k`'s deliveries; the tweets before `k` are gone
    and tweet `k` and the later ones remain as they were.
   */
  lemma SendCycleFailure(T: map<string, TweetDoc>, C: map<string, ChatDoc>, ts: seq<TweetDoc>, cs: seq<ChatDoc>, send: Sender, now: Timestamp)
    requires ListsTweets(ts, T)
    requires DispatchFrom(Cycle(T, C, [], false), ts, cs, send, now).failed
    ensures var r := DispatchFrom(Cycle(T, C, [], false), ts, cs, send, now); var k := FailingRound(ts, cs, send);
      && k < |ts| && RoundFails(ts[k], cs, send)
      && Plan(ts[..k], cs) <= r.sent && r.sent[|Plan(ts[..k], cs)|..] < Wanted(ts[k], cs)
      && r.tweets == T - IdsBefore(ts, k) && Remaining(r.tweets, ts, k)
  {
    var st := Cycle(T, C, [], false);
    var r := DispatchFrom(st, ts, cs, send, now);
    var k := FailingRound(ts, cs, send);
    DispatchFails(st, ts, cs, send, now);
    FailingRoundIsFirst(ts, cs, send);
    DispatchSentOnFailure(st, ts, cs, send, now);
    assert st.sent + Plan(ts[..k], cs) == Plan(ts[..k], cs);
    DispatchRemoves(st, ts, cs, send, now);
    RemainingAfter(T, ts, k);
  }

  /**
    The chat documents a failed cycle leaves. With `k` the first round with
    a refused send, a snapshot chat that round `k` reached before the
    refusal and that tweet `k` passes holds tweet `k`; every other snapshot
    chat, the refusing one included, holds what the tweets before `k` left
    it. The chat keys never change.
   */
  lemma SendCycleFailureChats(T: map<string, TweetDoc>, C: map<string, ChatDoc>, ts: seq<TweetDoc>, cs: seq<ChatDoc>, send: Sender, now: Timestamp)
    requires ListsChats(cs, C)
    requires DispatchFrom(Cycle(T, C, [], false), ts, cs, send, now).failed
    ensures var r := DispatchFrom(Cycle(T, C, [], false), ts, cs, send, now); var k := FailingRound(ts, cs, send);
      && k < |ts| && Reached(ts[k], cs, send) < |cs|
      && r.chats.Keys == C.Keys
      && (forall i :: 0 <= i < |cs| ==>
            r.chats[cs[i].id] ==
              if i < Reached(ts[k], cs, send) && ShouldSend(cs[i].latestId, ts[k].id) then Written(cs[i], ts[k], now)
              else FinalChat(cs[i], ts[..k], cs[i], now))
      && r.chats[cs[Reached(ts[k], cs, send)].id] == FinalChat(cs[Reached(ts[k], cs, send)], ts[..k], cs[Reached(ts[k], cs, send)], now)
  {
    var st := Cycle(T, C, [], false);
    var k := FailingRound(ts, cs, send);
    DispatchFails(st, ts, cs, send, now);
    FailingRoundIsFirst(ts, cs, send);
    ReachedIsFirst(ts[k], cs, send);
    DispatchChats(st, ts, cs, send, now);
    DispatchChatsOnFailure(st, ts, cs, send, now);
  }

  /**
    Whether or not a send raises, a snapshot chat whose watermark is a real
    id ends the cycle on that id or on an id above it as text.
   */
  lemma CycleWatermarkNeverDecreases(T: map<string, TweetDoc>, C: map<string, ChatDoc>, ts: seq<TweetDoc>, cs: seq<ChatDoc>, send: Sender, now: Timestamp)
    requires SortedById(ts) && ListsTweets(ts, T) && ListsChats(cs, C)
    ensures var r := DispatchFrom(Cycle(T, C, [], false), ts, cs, send, now);
      && r.chats.Keys == C.Keys
      && forall i :: 0 <= i < |cs| && cs[i].latestId != "" && cs[i].latestId != "None" ==>
           StrLe(cs[i].latestId, r.chats[cs[i].id].latestId)
  {
    var r := DispatchFrom(Cycle(T, C, [], false), ts, cs, send, now);
    SendCycle(T, C, ts, cs, send, now);
    if !r.failed {
      forall i | 0 <= i < |cs| && cs[i].latestId != "" && cs[i].latestId != "None"
        ensures StrLe(cs[i].latestId, r.chats[cs[i].id].latestId)
      {
        WatermarkNeverDecreases(cs[i], ts, now);
      }
    } else {
      SendCycleFailureChats(T, C, ts, cs, send, now);
      var k := FailingRound(ts, cs, send);
      assert SortedById(ts[..k]);
      forall i | 0 <= i < |cs| && cs[i].latestId != "" && cs[i].latestId != "None"
        ensures StrLe(cs[i].latestId, r.chats[cs[i].id].latestId)
      {
        if !(i < Reached(ts[k], cs, send) && ShouldSend(cs[i].latestId, ts[k].id)) {
          WatermarkNeverDecreases(cs[i], ts[..k], now);
        }
      }
    }
  }

  /** Tweets `0..k-1` of `ts` are gone from `m`, tweets `k..` are there as listed. */
  ghost predicate Remaining(m: map<string, TweetDoc>, ts: seq<TweetDoc>, k: nat) {
    && (forall i :: 0 <= i < k && i < |ts| ==> ts[i].id !in m)
    && (forall i :: k <= i < |ts| ==> ts[i].id in m && m[ts[i].id] == ts[i])
  }

  lemma RemainingAfter(T: map<string, TweetDoc>, ts: seq<TweetDoc>, k: nat)
    requires ListsTweets(ts, T)
    ensures Remaining(T - IdsBefore(ts, k), ts, k)
  {
    forall i | k <= i < |ts| ensures ts[i].id !in IdsBefore(ts, k) {
      forall j | 0 <= j < k && j < |ts| ensures ts[j].id != ts[i].id {
      }
    }
  }
}
