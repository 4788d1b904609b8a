/**
  What one `job_fetch` cycle computes (itcuabot/EpicBot.py, `job_fetch`):
  how many posts it asks for, the running maximum of their ids, and the
  upserts into the tweet collection, in batch order. The loop itself is
  `Relay.EpicBot.JobFetch`.
 */
module Fetch {
  import opened Wrappers
  import opened PyValues
  import opened Store

  /** How many posts a fetch asks for: one while the cursor is unset or falsy, five afterwards. */
  function FetchLimit(cursor: Option<int>): (n: nat)
    ensures n == 1 || n == 5
    ensures n == 5 <==> cursor.Some? && cursor.value != 0
  {
    if Truthy(CursorValue(cursor)) then 5 else 1
  }

  /** The first `count` posts the timeline yields, or all of them when it yields fewer. */
  function Take(timeline: seq<Tweet>, count: nat): (batch: seq<Tweet>)
    ensures |batch| <= count && |batch| <= |timeline| && batch == timeline[..|batch|]
    ensures |batch| == count || batch == timeline
  {
    if |timeline| <= count then timeline else timeline[..count]
  }

  lemma FetchLimitBound(cursor: Option<int>, timeline: seq<Tweet>)
    ensures cursor.None? ==> |Take(timeline, FetchLimit(cursor))| <= 1
    ensures |Take(timeline, FetchLimit(cursor))| <= 5
    ensures cursor.Some? && cursor.value != 0 ==> |Take(timeline, FetchLimit(cursor))| == if |timeline| < 5 then |timeline| else 5
  {
  }

  // ---------------------------------------------------------------------------
  // Running maximum

  /**
    One step of the running maximum: the new id when it is above the
    maximum so far, reading `None` as below every id (Python 2 order).
    Under Python 3 the first comparison raises instead; see `RunningMaxPy3`.
   */
  function RunningMax(latest: Option<int>, id: int): (r: Option<int>)
    ensures r.Some? && id <= r.value
    ensures latest.Some? ==> latest.value <= r.value
    ensures r == Some(id) || r == latest
  {
    if latest.None? || latest.value < id then Some(id) else latest
  }

  /** The running maximum after the whole batch. */
  function MaxId(batch: seq<Tweet>): Option<int>
    decreases |batch|
  {
    if batch == [] then None else RunningMax(MaxId(batch[..|batch| - 1]), batch[|batch| - 1].id)
  }

  /** The running maximum is the largest id of the batch, and `None` only for an empty batch. */
  lemma {:induction false} MaxIdIsMax(batch: seq<Tweet>)
    ensures MaxId(batch).None? <==> batch == []
    ensures batch != [] ==> exists i :: 0 <= i < |batch| && batch[i].id == MaxId(batch).value
    ensures forall i :: 0 <= i < |batch| ==> batch[i].id <= MaxId(batch).value
    decreases |batch|
  {
    if batch != [] {
      var front := batch[..|batch| - 1];
      MaxIdIsMax(front);
      var m := MaxId(batch);
      if front != [] {
        var i :| 0 <= i < |front| && front[i].id == MaxId(front).value;
        assert batch[i] == front[i];
      }
      forall i | 0 <= i < |batch| ensures batch[i].id <= m.value {
        if i < |batch| - 1 {
          assert batch[i] == front[i];
        }
      }
    }
  }

  /** The cursor after a fetch: the batch's maximum when that is truthy, otherwise the old cursor. */
  function AdvanceCursor(cursor: Option<int>, batch: seq<Tweet>): Option<int> {
    if Truthy(CursorValue(MaxId(batch))) then MaxId(batch) else cursor
  }

  /**
    A non-empty batch moves the cursor to its largest id (ids are never 0
    on the timeline, 0 being falsy); an empty batch leaves it unchanged.
   */
  lemma AdvanceCursorToMax(cursor: Option<int>, batch: seq<Tweet>)
    requires forall i :: 0 <= i < |batch| ==> batch[i].id != 0
    ensures batch == [] ==> AdvanceCursor(cursor, batch) == cursor
    ensures batch != [] ==> AdvanceCursor(cursor, batch).Some?
    ensures batch != [] ==> exists i :: 0 <= i < |batch| && batch[i].id == AdvanceCursor(cursor, batch).value
    ensures batch != [] ==> forall i :: 0 <= i < |batch| ==> batch[i].id <= AdvanceCursor(cursor, batch).value
  {
    MaxIdIsMax(batch);
  }

  /**
    The cursor never moves back as long as the timeline honours `since_id`
    (every post it yields is newer than the cursor).
   */
  lemma AdvanceCursorMonotone(cursor: Option<int>, batch: seq<Tweet>)
    requires cursor.Some?
    requires forall i :: 0 <= i < |batch| ==> batch[i].id > cursor.value
    ensures AdvanceCursor(cursor, batch).Some? && AdvanceCursor(cursor, batch).value >= cursor.value
  {
    MaxIdIsMax(batch);
    if batch != [] {
      var i :| 0 <= i < |batch| && batch[i].id == MaxId(batch).value;
    }
  }

  // ---------------------------------------------------------------------------
  // Upserts

  /**
    The `save_tweet` calls of the loop, in batch order. A save the unique
    index refuses raises out of `job_fetch`: the later posts are not saved.
   */
  function SaveBatch(m: map<string, TweetDoc>, batch: seq<Tweet>): Saved
    decreases |batch|
  {
    if batch == [] then Saved(m, true)
    else
      var r := PutTweet(m, batch[0]);
      if !r.ok then r else SaveBatch(r.tweets, batch[1..])
  }

  function Key(t: Tweet): string {
    TweetDocument(t).id
  }

  /** `SaveBatch` from position `i` on, unfolded by one post. */
  lemma SaveBatchAt(m: map<string, TweetDoc>, batch: seq<Tweet>, i: nat)
    requires i < |batch|
    ensures SaveBatch(m, batch[i..]) ==
      (var r := PutTweet(m, batch[i]); if !r.ok then r else SaveBatch(r.tweets, batch[i + 1..]))
  {
    assert batch[i..][0] == batch[i] && batch[i..][1..] == batch[i + 1..];
  }

  /** The running maximum of the first `i + 1` posts, one step on from the first `i`. */
  lemma MaxIdAt(batch: seq<Tweet>, i: nat)
    requires i < |batch|
    ensures MaxId(batch[..i + 1]) == RunningMax(MaxId(batch[..i]), batch[i].id)
  {
    assert batch[..i + 1][..i] == batch[..i];
  }

  /** No later post of the batch carries the id of post `i`. */
  predicate LastWithId(batch: seq<Tweet>, i: nat)
    requires i < |batch|
  {
    forall j :: i < j < |batch| ==> batch[j].id != batch[i].id
  }

  /**
    Saving a batch, in full or not, adds no key but those of its posts:
    every key afterwards was there before or is `str(id)` of a post.
   */
  lemma {:induction false} SaveBatchKeys(m: map<string, TweetDoc>, batch: seq<Tweet>)
    ensures forall k :: k in SaveBatch(m, batch).tweets ==> k in m || exists i :: 0 <= i < |batch| && Key(batch[i]) == k
    decreases |batch|
  {
    if batch != [] {
      var r := PutTweet(m, batch[0]);
      if r.ok {
        var rest := batch[1..];
        SaveBatchKeys(r.tweets, rest);
        forall k | k in SaveBatch(m, batch).tweets ensures k in m || exists i :: 0 <= i < |batch| && Key(batch[i]) == k {
          if k !in r.tweets {
            var j :| 0 <= j < |rest| && Key(rest[j]) == k;
            assert batch[j + 1] == rest[j];
          } else if k == Key(batch[0]) {
          }
        }
      }
    }
  }

  /**
    A batch saved in full leaves every post under `str(id)`, the last post
    with a given id winning, and every other key as it was.
   */
  lemma {:induction false} SaveBatchStores(m: map<string, TweetDoc>, batch: seq<Tweet>)
    requires SaveBatch(m, batch).ok
    ensures forall i :: 0 <= i < |batch| ==> Key(batch[i]) in SaveBatch(m, batch).tweets
    ensures forall i :: 0 <= i < |batch| && LastWithId(batch, i) ==>
      SaveBatch(m, batch).tweets[Key(batch[i])] == TweetDocument(batch[i])
    ensures forall k :: k in m ==> k in SaveBatch(m, batch).tweets
    ensures forall k :: k in m && (forall i :: 0 <= i < |batch| ==> Key(batch[i]) != k) ==>
      SaveBatch(m, batch).tweets[k] == m[k]
    ensures forall k :: k in SaveBatch(m, batch).tweets ==> k in m || exists i :: 0 <= i < |batch| && Key(batch[i]) == k
    decreases |batch|
  {
    SaveBatchKeys(m, batch);
    if batch != [] {
      var r := PutTweet(m, batch[0]);
      var rest := batch[1..];
      SaveBatchStores(r.tweets, rest);
      var out := SaveBatch(m, batch).tweets;
      assert out == SaveBatch(r.tweets, rest).tweets;
      forall i | 0 <= i < |batch| ensures Key(batch[i]) in out {
        if i > 0 { assert batch[i] == rest[i - 1]; }
      }
      forall i | 0 <= i < |batch| && LastWithId(batch, i) ensures out[Key(batch[i])] == TweetDocument(batch[i]) {
        if i > 0 {
          assert batch[i] == rest[i - 1];
          assert LastWithId(rest, i - 1) by {
            forall j | i - 1 < j < |rest| ensures rest[j].id != rest[i - 1].id {
              assert rest[j] == batch[j + 1];
            }
          }
        } else {
          forall j | 0 <= j < |rest| ensures Key(rest[j]) != Key(batch[0]) {
            assert rest[j] == batch[j + 1];
            TweetDocumentKeysDistinct(rest[j], batch[0]);
          }
        }
      }
      forall k | k in m && (forall i :: 0 <= i < |batch| ==> Key(batch[i]) != k) ensures out[k] == m[k] {
        assert Key(batch[0]) != k;
        forall j | 0 <= j < |rest| ensures Key(rest[j]) != k {
          assert rest[j] == batch[j + 1];
        }
      }
    }
  }

  /**
    When the batch clashes with nothing, it is saved in full: posts with
    different ids carry different `created_at`, and no stored document
    under another key holds a post's `created_at`.
   */
  lemma {:induction false} SaveBatchSucceeds(m: map<string, TweetDoc>, batch: seq<Tweet>)
    requires forall i, j :: 0 <= i < |batch| && 0 <= j < |batch| && batch[i].id != batch[j].id ==>
      batch[i].createdAt != batch[j].createdAt
    requires forall i, k :: 0 <= i < |batch| && k in m && k != Key(batch[i]) ==> m[k].createdAt != batch[i].createdAt
    ensures SaveBatch(m, batch).ok
    decreases |batch|
  {
    if batch != [] {
      var d := TweetDocument(batch[0]);
      assert !CreatedAtTaken(m, d.id, d.createdAt);
      var m' := PutTweet(m, batch[0]).tweets;
      assert m' == m[d.id := d];
      var rest := batch[1..];
      forall i, k | 0 <= i < |rest| && k in m' && k != Key(rest[i]) ensures m'[k].createdAt != rest[i].createdAt {
        assert rest[i] == batch[i + 1];
        if k == d.id {
          TweetDocumentKeysDistinct(rest[i], batch[0]);
        }
      }
      forall i, j | 0 <= i < |rest| && 0 <= j < |rest| && rest[i].id != rest[j].id
        ensures rest[i].createdAt != rest[j].createdAt
      {
        assert rest[i] == batch[i + 1] && rest[j] == batch[j + 1];
      }
      SaveBatchSucceeds(m', rest);
    }
  }

  /** The unique index holds after every batch, saved in full or not. */
  lemma {:induction false} SaveBatchKeepsIndex(m: map<string, TweetDoc>, batch: seq<Tweet>)
    requires TweetsKeyed(m) && CreatedAtUnique(m)
    ensures TweetsKeyed(SaveBatch(m, batch).tweets) && CreatedAtUnique(SaveBatch(m, batch).tweets)
    decreases |batch|
  {
    if batch != [] {
      PutTweetKeepsIndex(m, batch[0]);
      SaveBatchKeepsIndex(PutTweet(m, batch[0]).tweets, batch[1..]);
    }
  }

  /** Saving posts that are already stored, as they are, changes nothing. */
  lemma {:induction false} SaveBatchOfStored(m: map<string, TweetDoc>, batch: seq<Tweet>)
    requires CreatedAtUnique(m)
    requires forall i :: 0 <= i < |batch| ==> Key(batch[i]) in m && m[Key(batch[i])] == TweetDocument(batch[i])
    ensures SaveBatch(m, batch) == Saved(m, true)
    decreases |batch|
  {
    if batch != [] {
      var d := TweetDocument(batch[0]);
      assert !CreatedAtTaken(m, d.id, d.createdAt);
      assert m[d.id := d] == m;
      forall i | 0 <= i < |batch[1..]|
        ensures Key(batch[1..][i]) in m && m[Key(batch[1..][i])] == TweetDocument(batch[1..][i])
      {
        assert batch[1..][i] == batch[i + 1];
      }
      SaveBatchOfStored(m, batch[1..]);
    }
  }

  predicate DistinctIds(batch: seq<Tweet>) {
    forall i, j :: 0 <= i < j < |batch| ==> batch[i].id != batch[j].id
  }

  /**
    Fetching the same batch of distinct posts twice leaves the store as
    fetching it once: one document per id, nothing duplicated.
   */
  lemma SaveBatchIdempotent(m: map<string, TweetDoc>, batch: seq<Tweet>)
    requires TweetsKeyed(m) && CreatedAtUnique(m)
    requires DistinctIds(batch)
    requires SaveBatch(m, batch).ok
    ensures SaveBatch(SaveBatch(m, batch).tweets, batch) == SaveBatch(m, batch)
  {
    var r := SaveBatch(m, batch);
    SaveBatchStores(m, batch);
    SaveBatchKeepsIndex(m, batch);
    forall i | 0 <= i < |batch| ensures LastWithId(batch, i) {
    }
    SaveBatchOfStored(r.tweets, batch);
  }

  // ---------------------------------------------------------------------------
  // The loop as written, under Python 3

  /** Outcome of evaluating `latest_id < tweet.id` under Python 3. */
  datatype Comparison = TypeError | Compared(less: bool)

  /** Python 3 refuses to order `None` against an int. */
  function LessPy3(latest: Option<int>, id: int): Comparison {
    if latest.None? then TypeError else Compared(latest.value < id)
  }

  /** One step of the running maximum under Python 3: `None` means the comparison raised. */
  function RunningMaxPy3(latest: Option<int>, id: int): Option<Option<int>> {
    match LessPy3(latest, id)
    case TypeError => None
    case Compared(less) => Some(if less then Some(id) else latest)
  }

  /**
    The fetch loop of EpicBot.py under Python 3: compare first, then save.
    The comparison that raises ends the cycle before that post is saved.
   */
  function FetchLoopPy3(latest: Option<int>, m: map<string, TweetDoc>, batch: seq<Tweet>): Saved
    decreases |batch|
  {
    if batch == [] then Saved(m, true)
    else match RunningMaxPy3(latest, batch[0].id)
      case None => Saved(m, false)
      case Some(next) =>
        var r := PutTweet(m, batch[0]);
        if !r.ok then r else FetchLoopPy3(next, r.tweets, batch[1..])
  }

  /**
    Under Python 3 every non-empty fetch raises at its first post, since the
    running maximum starts at `None`: nothing is ever saved and the cursor
    stays unset, whereas the Python 2 reading saves the batch and advances.
   */
  lemma Py3FetchRaisesOnFirstTweet(m: map<string, TweetDoc>, batch: seq<Tweet>)
    requires batch != []
    ensures FetchLoopPy3(None, m, batch) == Saved(m, false)
    ensures MaxId(batch).Some?
  {
    MaxIdIsMax(batch);
  }
}
