/**
 * db.py: the three sqlite tables held in memory, the statements that change
 * them, and the read-only queries over them.
 *
 * The activity table is a map from user_id (its primary key) to the rest of
 * the row, the scheduled_posts table a map from its AUTOINCREMENT id, and
 * the messages table a sequence in insertion order whose (chat_id,
 * message_id) keys are unique, as the table's composite primary key demands.
 */
module Db {
  import opened Wrappers
  import opened Seqs
  import Util

  /** The fields of a Telegram user that upsert_user stores. */
  datatype TgUser = TgUser(
    id: int,
    username: Option<string>,
    firstName: Option<string>,
    lastName: Option<string>,
    isBot: bool)

  /** A row of the activity table; the user_id column is the key it is stored under. */
  datatype ActivityRow = ActivityRow(
    username: Option<string>,
    firstName: Option<string>,
    lastName: Option<string>,
    isBot: int,
    joinedTs: Option<int>,
    lastMsgTs: Option<int>)

  /** A row of the messages table. */
  datatype Message = Message(
    chatId: int,
    messageId: int,
    userId: int,
    ts: int,
    replyTo: Option<int>,
    threadId: Option<int>)

  /** The three values the status column of scheduled_posts takes. */
  datatype Status = Pending | Sent | Failed

  /** A row of the scheduled_posts table; the id column is the key it is stored under. */
  datatype ScheduledPost = ScheduledPost(
    channelId: int,
    runAtTs: int,
    fileId: string,
    caption: Option<string>,
    status: Status,
    sentTs: Option<int>)

  /** The primary key of the messages table. */
  function MessageKey(m: Message): (int, int) {
    (m.chatId, m.messageId)
  }

  predicate UniqueKeys(msgs: seq<Message>) {
    forall i, j :: 0 <= i < j < |msgs| ==> MessageKey(msgs[i]) != MessageKey(msgs[j])
  }

  predicate HasKey(msgs: seq<Message>, key: (int, int)) {
    exists i :: 0 <= i < |msgs| && MessageKey(msgs[i]) == key
  }

  function BoolToInt(b: bool): int {
    if b then 1 else 0
  }

  /** Deleting rows from a table with unique keys leaves the keys unique. */
  lemma {:induction false} FilterKeepsKeysUnique(msgs: seq<Message>, keep: Message -> bool)
    requires UniqueKeys(msgs)
    ensures UniqueKeys(Filter(msgs, keep))
  {
    if |msgs| > 0 {
      var rest := Filter(msgs[1..], keep);
      FilterKeepsKeysUnique(msgs[1..], keep);
      if keep(msgs[0]) {
        forall j | 0 <= j < |rest|
          ensures MessageKey(msgs[0]) != MessageKey(rest[j])
        {
          KeyOfLaterRow(msgs, rest[j]);
        }
        PrependKeepsKeysUnique(msgs[0], rest);
        assert Filter(msgs, keep) == [msgs[0]] + rest;
      } else {
        assert Filter(msgs, keep) == rest;
      }
    }
  }

  lemma PrependKeepsKeysUnique(m: Message, rest: seq<Message>)
    requires UniqueKeys(rest)
    requires forall j :: 0 <= j < |rest| ==> MessageKey(m) != MessageKey(rest[j])
    ensures UniqueKeys([m] + rest)
  {
    forall i, j | 0 <= i < j < |[m] + rest|
      ensures MessageKey(([m] + rest)[i]) != MessageKey(([m] + rest)[j])
    {
      assert ([m] + rest)[j] == rest[j - 1];
      if i > 0 {
        assert ([m] + rest)[i] == rest[i - 1];
      }
    }
  }

  lemma KeyOfLaterRow(msgs: seq<Message>, m: Message)
    requires |msgs| > 0 && UniqueKeys(msgs)
    requires m in multiset(msgs[1..])
    ensures MessageKey(msgs[0]) != MessageKey(m)
  {
    var k :| 0 <= k < |msgs[1..]| && msgs[1..][k] == m;
    assert msgs[k + 1] == m;
  }

  /** The messages table after DELETE FROM messages WHERE user_id=?, in the order it had. */
  function WithoutUser(msgs: seq<Message>, userId: int): (r: seq<Message>)
    ensures forall m :: m in r <==> m in msgs && m.userId != userId
  {
    var keep := (m: Message) => m.userId != userId;
    var r := Filter(msgs, keep);
    forall m
      ensures m in r <==> m in msgs && m.userId != userId
    {
      FilterMember(msgs, keep, m);
    }
    r
  }

  lemma WithoutUserKeepsKeysUnique(msgs: seq<Message>, userId: int)
    requires UniqueKeys(msgs)
    ensures UniqueKeys(WithoutUser(msgs, userId))
  {
    FilterKeepsKeysUnique(msgs, (m: Message) => m.userId != userId);
  }

  class Store {
    var activity: map<int, ActivityRow>
    var messages: seq<Message>
    var posts: map<int, ScheduledPost>
    /** The largest id AUTOINCREMENT has handed out so far. */
    var lastPostId: nat

    /** The table constraints of INIT_SQL. */
    ghost predicate Valid()
      reads this
    {
      && UniqueKeys(messages)
      && (forall u :: u in activity ==> 0 <= activity[u].isBot <= 1)
      && (forall id :: id in posts ==> 1 <= id <= lastPostId)
    }

    /** The tables as init_db leaves them on a fresh database. */
    constructor ()
      ensures Valid()
      ensures activity == map[] && messages == [] && posts == map[] && lastPostId == 0
    {
      activity := map[];
      messages := [];
      posts := map[];
      lastPostId := 0;
    }

    /**
     * upsert_user: a known user gets the names and each timestamp that is
     * given; an unknown user gets a new row.
     */
    method UpsertUser(u: TgUser, joinedTs: Option<int>, lastMsgTs: Option<int>)
      requires Valid()
      modifies this
      ensures Valid()
      ensures messages == old(messages) && posts == old(posts) && lastPostId == old(lastPostId)
      ensures activity.Keys == old(activity).Keys + {u.id}
      ensures forall v :: v in old(activity) && v != u.id ==> activity[v] == old(activity)[v]
      ensures u.id !in old(activity) ==>
        activity[u.id] == ActivityRow(u.username, u.firstName, u.lastName, BoolToInt(u.isBot), joinedTs, lastMsgTs)
      ensures u.id in old(activity) && joinedTs.None? && lastMsgTs.None? ==> activity == old(activity)
      ensures u.id in old(activity) && (joinedTs.Some? || lastMsgTs.Some?) ==>
        var was, row := old(activity)[u.id], activity[u.id];
        && row.username == u.username && row.firstName == u.firstName && row.lastName == u.lastName
        && row.isBot == was.isBot
        && row.joinedTs == (if joinedTs.Some? then joinedTs else was.joinedTs)
        && row.lastMsgTs == (if lastMsgTs.Some? then lastMsgTs else was.lastMsgTs)
    {
      if u.id in activity {
        if lastMsgTs.Some? {
          var row := activity[u.id];
          activity := activity[u.id := row.(username := u.username, firstName := u.firstName,
                                            lastName := u.lastName, lastMsgTs := lastMsgTs)];
        }
        if joinedTs.Some? {
          var row := activity[u.id];
          activity := activity[u.id := row.(username := u.username, firstName := u.firstName,
                                            lastName := u.lastName, joinedTs := joinedTs)];
        }
      } else {
        activity := activity[u.id := ActivityRow(u.username, u.firstName, u.lastName,
                                                 BoolToInt(u.isBot), joinedTs, lastMsgTs)];
      }
    }

    /** delete_user: drops the user's activity row and every message the user wrote. */
    method DeleteUser(userId: int)
      requires Valid()
      modifies this
      ensures Valid()
      ensures posts == old(posts) && lastPostId == old(lastPostId)
      ensures activity == old(activity) - {userId}
      ensures messages == WithoutUser(old(messages), userId)
    {
      var kept := WithoutUser(messages, userId);
      WithoutUserKeepsKeysUnique(messages, userId);
      activity := activity - {userId};
      messages := kept;
    }

    /** The INSERT OR IGNORE of message_tracker: a message whose key is taken is dropped. */
    method InsertMessage(m: Message)
      requires Valid()
      modifies this
      ensures Valid()
      ensures activity == old(activity) && posts == old(posts) && lastPostId == old(lastPostId)
      ensures HasKey(old(messages), MessageKey(m)) ==> messages == old(messages)
      ensures !HasKey(old(messages), MessageKey(m)) ==> messages == old(messages) + [m]
      ensures HasKey(messages, MessageKey(m))
    {
      if !HasKey(messages, MessageKey(m)) {
        messages := messages + [m];
        assert MessageKey(messages[|messages| - 1]) == MessageKey(m);
      }
    }

    /** add_scheduled_post: a new pending row under a fresh id, which it returns. */
    method AddScheduledPost(fileId: string, runAtTs: int, channelId: int) returns (id: int)
      requires Valid()
      modifies this
      ensures Valid()
      ensures activity == old(activity) && messages == old(messages)
      ensures id == old(lastPostId) + 1 && lastPostId == id
      ensures id !in old(posts)
      ensures posts == old(posts)[id := ScheduledPost(channelId, runAtTs, fileId, None, Pending, None)]
    {
      lastPostId := lastPostId + 1;
      id := lastPostId;
      posts := posts[id := ScheduledPost(channelId, runAtTs, fileId, None, Pending, None)];
    }
  }

  function TsKey(m: Message): Key {
    (m.ts, 0)
  }

  lemma OrderedByTs(r: seq<Message>)
    requires SortedBy(r, TsKey)
    ensures forall i, j :: 0 <= i < j < |r| ==> r[i].ts <= r[j].ts
  {
    forall i, j | 0 <= i < j < |r|
      ensures r[i].ts <= r[j].ts
    {
      assert KeyLe(TsKey(r[i]), TsKey(r[j]));
    }
  }

  /** The WHERE clause of fetch_messages_since. */
  predicate InWindow(m: Message, sinceTs: int, chatId: int) {
    m.chatId == chatId && m.ts >= sinceTs
  }

  /** fetch_messages_since: the chat's messages from since_ts on, oldest first. */
  function MessagesSince(msgs: seq<Message>, sinceTs: int, chatId: int): (r: seq<Message>)
    ensures forall m :: m in r <==> m in msgs && InWindow(m, sinceTs, chatId)
    ensures forall i, j :: 0 <= i < j < |r| ==> r[i].ts <= r[j].ts
    ensures multiset(r) <= multiset(msgs)
  {
    var keep := (m: Message) => InWindow(m, sinceTs, chatId);
    var selected := Filter(msgs, keep);
    var r := SortBy(selected, TsKey);
    OrderedByTs(r);
    forall m
      ensures m in r <==> m in msgs && InWindow(m, sinceTs, chatId)
    {
      FilterMember(msgs, keep, m);
      assert m in r <==> m in multiset(selected);
    }
    r
  }

  /** Some message of the chat was written by u at time ts. */
  predicate WroteAt(msgs: seq<Message>, chatId: int, u: int, ts: int) {
    exists i :: 0 <= i < |msgs| && msgs[i].chatId == chatId && msgs[i].userId == u && msgs[i].ts == ts
  }

  /** The users with at least one message in the chat. */
  function Writers(msgs: seq<Message>, chatId: int): set<int> {
    set i | 0 <= i < |msgs| && msgs[i].chatId == chatId :: msgs[i].userId
  }

  /** How Writers and WroteAt grow when one more row is appended. */
  lemma AppendedRow(msgs: seq<Message>, chatId: int)
    requires |msgs| > 0
    ensures var init, m := msgs[..|msgs| - 1], msgs[|msgs| - 1];
      && Writers(msgs, chatId) == Writers(init, chatId) + (if m.chatId == chatId then {m.userId} else {})
      && (forall u, ts :: WroteAt(init, chatId, u, ts) ==> WroteAt(msgs, chatId, u, ts))
      && (m.chatId == chatId ==> WroteAt(msgs, chatId, m.userId, m.ts))
  {
    var init, m := msgs[..|msgs| - 1], msgs[|msgs| - 1];
    forall u, ts | WroteAt(init, chatId, u, ts)
      ensures WroteAt(msgs, chatId, u, ts)
    {
      var i :| 0 <= i < |init| && init[i].chatId == chatId && init[i].userId == u && init[i].ts == ts;
      assert msgs[i] == init[i];
    }
    assert m.chatId == chatId ==> msgs[|msgs| - 1].userId == m.userId;
    var added := if m.chatId == chatId then {m.userId} else {};
    forall u | u in Writers(msgs, chatId)
      ensures u in Writers(init, chatId) + added
    {
      var i :| 0 <= i < |msgs| && msgs[i].chatId == chatId && msgs[i].userId == u;
      if i < |init| {
        assert init[i] == msgs[i];
      }
    }
    forall u | u in Writers(init, chatId)
      ensures u in Writers(msgs, chatId)
    {
      var i :| 0 <= i < |init| && init[i].chatId == chatId && init[i].userId == u;
      assert msgs[i] == init[i];
    }
  }

  /** fetch_first_msg_ts_per_user: MIN(ts) grouped by user_id over the chat's messages. */
  function FirstTsPerUser(msgs: seq<Message>, chatId: int): (r: map<int, int>)
    ensures r.Keys == Writers(msgs, chatId)
  {
    if |msgs| == 0 then map[]
    else
      var init, m := msgs[..|msgs| - 1], msgs[|msgs| - 1];
      var rest := FirstTsPerUser(init, chatId);
      AppendedRow(msgs, chatId);
      if m.chatId != chatId || (m.userId in rest && rest[m.userId] <= m.ts) then rest
      else rest[m.userId := m.ts]
  }

  /** Each user's first time is at most each of their message times, and the time of one of them. */
  lemma {:induction false} FirstTsIsEarliest(msgs: seq<Message>, chatId: int)
    ensures var r := FirstTsPerUser(msgs, chatId);
      && (forall i :: 0 <= i < |msgs| && msgs[i].chatId == chatId ==> msgs[i].userId in r && r[msgs[i].userId] <= msgs[i].ts)
      && (forall u :: u in r ==> WroteAt(msgs, chatId, u, r[u]))
  {
    if |msgs| > 0 {
      var init, m := msgs[..|msgs| - 1], msgs[|msgs| - 1];
      var r, rest := FirstTsPerUser(msgs, chatId), FirstTsPerUser(init, chatId);
      var kept := m.chatId != chatId || (m.userId in rest && rest[m.userId] <= m.ts);
      assert r == if kept then rest else rest[m.userId := m.ts];
      FirstTsIsEarliest(init, chatId);
      AppendedRow(msgs, chatId);
      forall i | 0 <= i < |msgs| && msgs[i].chatId == chatId
        ensures msgs[i].userId in r && r[msgs[i].userId] <= msgs[i].ts
      {
        var u := msgs[i].userId;
        if i == |init| {
          assert msgs[i] == m;
        } else if kept || u != m.userId {
          assert msgs[i] == init[i];
          assert r[u] == rest[u];
        } else {
          assert msgs[i] == init[i];
          assert r[u] == m.ts;
        }
      }
      forall u | u in r
        ensures WroteAt(msgs, chatId, u, r[u])
      {
        if kept || u != m.userId {
          assert r[u] == rest[u];
        }
      }
    }
  }

  /** fetch_last_msg_ts_per_user: MAX(ts) grouped by user_id over the chat's messages. */
  function LastTsPerUser(msgs: seq<Message>, chatId: int): (r: map<int, int>)
    ensures r.Keys == Writers(msgs, chatId)
  {
    if |msgs| == 0 then map[]
    else
      var init, m := msgs[..|msgs| - 1], msgs[|msgs| - 1];
      var rest := LastTsPerUser(init, chatId);
      AppendedRow(msgs, chatId);
      if m.chatId != chatId || (m.userId in rest && rest[m.userId] >= m.ts) then rest
      else rest[m.userId := m.ts]
  }

  /** Each user's last time is at least each of their message times, and the time of one of them. */
  lemma {:induction false} LastTsIsLatest(msgs: seq<Message>, chatId: int)
    ensures var r := LastTsPerUser(msgs, chatId);
      && (forall i :: 0 <= i < |msgs| && msgs[i].chatId == chatId ==> msgs[i].userId in r && msgs[i].ts <= r[msgs[i].userId])
      && (forall u :: u in r ==> WroteAt(msgs, chatId, u, r[u]))
  {
    if |msgs| > 0 {
      var init, m := msgs[..|msgs| - 1], msgs[|msgs| - 1];
      var r, rest := LastTsPerUser(msgs, chatId), LastTsPerUser(init, chatId);
      var kept := m.chatId != chatId || (m.userId in rest && rest[m.userId] >= m.ts);
      assert r == if kept then rest else rest[m.userId := m.ts];
      LastTsIsLatest(init, chatId);
      AppendedRow(msgs, chatId);
      forall i | 0 <= i < |msgs| && msgs[i].chatId == chatId
        ensures msgs[i].userId in r && msgs[i].ts <= r[msgs[i].userId]
      {
        var u := msgs[i].userId;
        if i == |init| {
          assert msgs[i] == m;
        } else if kept || u != m.userId {
          assert msgs[i] == init[i];
          assert r[u] == rest[u];
        } else {
          assert msgs[i] == init[i];
          assert r[u] == m.ts;
        }
      }
      forall u | u in r
        ensures WroteAt(msgs, chatId, u, r[u])
      {
        if kept || u != m.userId {
          assert r[u] == rest[u];
        }
      }
    }
  }

  /**
   * The name column of user_display_names: COALESCE(username, first_name,
   * CAST(user_id AS TEXT)), shown with an "@" unless it is empty.
   */
  function DisplayName(uid: int, row: ActivityRow): string {
    var name :=
      if row.username.Some? then row.username.value
      else if row.firstName.Some? then row.firstName.value
      else Util.IntToString(uid);
    if name != "" then "@" + name else Util.IntToString(uid)
  }

  /** user_display_names: a name for every requested id that has an activity row. */
  function UserDisplayNames(activity: map<int, ActivityRow>, ids: seq<int>): (r: map<int, string>)
    ensures |ids| == 0 ==> r == map[]
    ensures forall u :: u in r <==> u in ids && u in activity
    ensures forall u :: u in r && activity[u].username.Some? && activity[u].username.value != "" ==>
              r[u] == "@" + activity[u].username.value
    ensures forall u :: (u in r && activity[u].username.None? && activity[u].firstName.Some? &&
                         activity[u].firstName.value != "") ==> r[u] == "@" + activity[u].firstName.value
    ensures forall u :: u in r && activity[u].username.None? && activity[u].firstName.None? ==>
              r[u] == "@" + Util.IntToString(u)
    ensures forall u :: u in r && activity[u].username == Some("") ==> r[u] == Util.IntToString(u)
    ensures forall u :: u in r && activity[u].username.None? && activity[u].firstName == Some("") ==>
              r[u] == Util.IntToString(u)
    ensures forall u :: u in r ==> (|r[u]| > 0 && r[u][0] == '@') || r[u] == Util.IntToString(u)
  {
    if |ids| == 0 then map[]
    else map u | u in ids && u in activity :: DisplayName(u, activity[u])
  }
}
