/**
 * bot.py's analytics over message rows: the current and previous windows of
 * metrics_summary, new and returning users, time to first reply, the
 * weekday/hour heatmap, the leaderboard and the per-day counts.
 *
 * Calendar day, weekday and hour come from Util.LocalDay, Util.LocalWeekday
 * and Util.LocalHour at a fixed UTC offset.
 */
module Metrics {
  import opened Wrappers
  import opened Seqs
  import Util
  import opened Db
  import opened Counting

  // ---------------------------------------------------------------------
  // Windows (bot.py:29-36)

  /** The first second of a window of `days` days ending at `end`. */
  function WindowStart(end: int, days: int): int {
    end - days * Util.DaySeconds
  }

  /** cur_msgs: the rows at or after start. */
  function CurrentWindow(rows: seq<Message>, start: int): (r: seq<Message>)
    ensures forall m :: m in r <==> m in rows && m.ts >= start
  {
    var keep := (m: Message) => m.ts >= start;
    forall m
      ensures m in Filter(rows, keep) <==> m in rows && m.ts >= start
    {
      FilterMember(rows, keep, m);
    }
    Filter(rows, keep)
  }

  /** prev_msgs: the rows in [prev_start, start). */
  function PreviousWindow(rows: seq<Message>, prevStart: int, start: int): (r: seq<Message>)
    ensures forall m :: m in r <==> m in rows && prevStart <= m.ts < start
  {
    var keep := (m: Message) => prevStart <= m.ts < start;
    forall m
      ensures m in Filter(rows, keep) <==> m in rows && prevStart <= m.ts < start
    {
      FilterMember(rows, keep, m);
    }
    Filter(rows, keep)
  }

  /**
   * The two windows share no row, and when every row is at or after
   * prev_start (as fetch_messages_since(prev_start) guarantees) together
   * they hold every row.
   */
  lemma {:induction false} WindowsPartition(rows: seq<Message>, prevStart: int, start: int)
    requires prevStart <= start
    requires forall i :: 0 <= i < |rows| ==> rows[i].ts >= prevStart
    ensures forall m :: !(m in CurrentWindow(rows, start) && m in PreviousWindow(rows, prevStart, start))
    ensures |CurrentWindow(rows, start)| + |PreviousWindow(rows, prevStart, start)| == |rows|
  {
    if |rows| > 0 {
      WindowsPartition(rows[1..], prevStart, start);
      assert CurrentWindow(rows, start)
          == (if rows[0].ts >= start then [rows[0]] else []) + CurrentWindow(rows[1..], start);
      assert PreviousWindow(rows, prevStart, start)
          == (if rows[0].ts < start then [rows[0]] else []) + PreviousWindow(rows[1..], prevStart, start);
    }
  }

  // ---------------------------------------------------------------------
  // Active, new and returning users (bot.py:38, 46-48)

  function UserIds(rows: seq<Message>): (ids: seq<int>)
    ensures |ids| == |rows|
    ensures forall i :: 0 <= i < |rows| ==> ids[i] == rows[i].userId
  {
    seq(|rows|, i requires 0 <= i < |rows| => rows[i].userId)
  }

  /** The keys of cnt_cur: every user with a row. */
  function ActiveUsers(rows: seq<Message>): (r: set<int>)
    ensures forall u :: u in r <==> exists i :: 0 <= i < |rows| && rows[i].userId == u
  {
    set i | 0 <= i < |rows| :: rows[i].userId
  }

  /** The float 1e18 that first_ts.get(u, 1e18) falls back to. */
  const NoFirstTs: int := 1_000_000_000_000_000_000

  /** The first timestamp recorded for u, or 1e18 when none is. */
  function FirstTsOr(firstTs: map<int, int>, u: int): int {
    if u in firstTs then firstTs[u] else NoFirstTs
  }

  /** new_users: active users whose first recorded message is not before start. */
  function NewUsers(active: set<int>, firstTs: map<int, int>, start: int): (r: set<int>)
    ensures r <= active
    ensures start <= NoFirstTs ==> forall u :: u in active && u !in firstTs ==> u in r
  {
    set u | u in active && FirstTsOr(firstTs, u) >= start
  }

  /** ret_users: the active users that are not new. */
  function ReturningUsers(active: set<int>, firstTs: map<int, int>, start: int): (r: set<int>)
    ensures r <= active
    ensures r !! NewUsers(active, firstTs, start)
    ensures r + NewUsers(active, firstTs, start) == active
  {
    active - NewUsers(active, firstTs, start)
  }

  /**
   * With first_ts read from the messages table, an active user is
   * returning exactly when the table holds a message of theirs in the chat
   * from before the window.
   */
  lemma ReturningIffEarlierMessage(msgs: seq<Message>, chatId: int, active: set<int>, start: int, u: int)
    requires start <= NoFirstTs
    requires u in active
    ensures u in ReturningUsers(active, FirstTsPerUser(msgs, chatId), start)
        <==> exists i :: 0 <= i < |msgs| && msgs[i].chatId == chatId && msgs[i].userId == u && msgs[i].ts < start
  {
    var firstTs := FirstTsPerUser(msgs, chatId);
    FirstTsIsEarliest(msgs, chatId);
    if exists i :: 0 <= i < |msgs| && msgs[i].chatId == chatId && msgs[i].userId == u && msgs[i].ts < start {
      var i :| 0 <= i < |msgs| && msgs[i].chatId == chatId && msgs[i].userId == u && msgs[i].ts < start;
      assert firstTs[u] <= msgs[i].ts;
    }
    if u in ReturningUsers(active, firstTs, start) {
      assert u in firstTs;
      assert WroteAt(msgs, chatId, u, firstTs[u]);
    }
  }

  // ---------------------------------------------------------------------
  // Time to first reply (bot.py:49, 52-66)

  /** Row m answers the message with key `key` (same chat, reply_to_message_id = its id). */
  predicate Answers(m: Message, key: (int, int)) {
    m.replyTo.Some? && (m.chatId, m.replyTo.value) == key
  }

  /** replies_by_orig[key]: the timestamps of the replies to key, in row order. */
  function ReplyTimes(rows: seq<Message>, key: (int, int)): (r: seq<int>)
    ensures |r| <= |rows|
  {
    if |rows| == 0 then []
    else
      var init, m := rows[..|rows| - 1], rows[|rows| - 1];
      ReplyTimes(init, key) + (if Answers(m, key) then [m.ts] else [])
  }

  /** The collected times are exactly those of the rows answering the key. */
  lemma {:induction false} ReplyTimesMembers(rows: seq<Message>, key: (int, int))
    ensures forall t :: t in ReplyTimes(rows, key) <==>
              exists i :: 0 <= i < |rows| && Answers(rows[i], key) && rows[i].ts == t
  {
    if |rows| > 0 {
      var init := rows[..|rows| - 1];
      ReplyTimesMembers(init, key);
      assert forall i :: 0 <= i < |init| ==> rows[i] == init[i];
    }
  }

  /** The first loop: replies_by_orig[(chat_id, reply_to)].append(ts) for every reply row. */
  method CollectReplies(rows: seq<Message>) returns (replies: map<(int, int), seq<int>>)
    ensures forall key :: key in replies <==> |ReplyTimes(rows, key)| > 0
    ensures forall key :: key in replies ==> replies[key] == ReplyTimes(rows, key)
  {
    replies := map[];
    for i := 0 to |rows|
      invariant forall key :: key in replies <==> |ReplyTimes(rows[..i], key)| > 0
      invariant forall key :: key in replies ==> replies[key] == ReplyTimes(rows[..i], key)
    {
      var r := rows[i];
      assert rows[..i + 1][..i] == rows[..i];
      assert rows[..i + 1][i] == r;
      if r.replyTo.Some? {
        var key := (r.chatId, r.replyTo.value);
        var earlier := if key in replies then replies[key] else [];
        replies := replies[key := earlier + [r.ts]];
      }
    }
    assert rows[..|rows|] == rows;
  }

  /** min(replies_by_orig[key]) - ts for a message that has replies. */
  function FirstReplyDelta(rows: seq<Message>, m: Message): (d: Option<int>)
    ensures d.Some? <==> |ReplyTimes(rows, MessageKey(m))| > 0
  {
    var times := ReplyTimes(rows, MessageKey(m));
    if |times| == 0 then None else Some(SeqMin(times) - m.ts)
  }

  /**
   * The delay is present exactly for an answered message, and it is the
   * time from the message to its earliest reply.
   */
  lemma FirstReplyDeltaMeaning(rows: seq<Message>, m: Message)
    ensures var d := FirstReplyDelta(rows, m);
            && (d.Some? <==> exists i :: 0 <= i < |rows| && Answers(rows[i], MessageKey(m)))
            && (d.Some? ==> forall i :: 0 <= i < |rows| && Answers(rows[i], MessageKey(m)) ==> m.ts + d.value <= rows[i].ts)
            && (d.Some? ==> exists i :: 0 <= i < |rows| && Answers(rows[i], MessageKey(m)) && rows[i].ts == m.ts + d.value)
  {
    var times := ReplyTimes(rows, MessageKey(m));
    ReplyTimesMembers(rows, MessageKey(m));
    assert forall i :: 0 <= i < |rows| && Answers(rows[i], MessageKey(m)) ==> rows[i].ts in times;
  }

  /** The first-reply delay of every current-window message, in order. */
  function Delays(rows: seq<Message>, cur: seq<Message>): (ds: seq<Option<int>>)
    ensures |ds| == |cur|
    ensures forall k :: 0 <= k < |cur| ==> ds[k] == FirstReplyDelta(rows, cur[k])
  {
    seq(|cur|, k requires 0 <= k < |cur| => FirstReplyDelta(rows, cur[k]))
  }

  /** The present, non-negative delays, in order. */
  function Kept(ds: seq<Option<int>>): (r: seq<int>)
    ensures |r| <= |ds|
    ensures NonNegative(r)
  {
    if |ds| == 0 then []
    else
      var d := ds[|ds| - 1];
      Kept(ds[..|ds| - 1]) + (if d.Some? && d.value >= 0 then [d.value] else [])
  }

  predicate NonNegative(s: seq<int>) {
    forall i :: 0 <= i < |s| ==> s[i] >= 0
  }

  /** first_reply_delta: the non-negative first-reply delays of the current-window messages, in order. */
  function ReplyDeltas(rows: seq<Message>, cur: seq<Message>): (r: seq<int>)
    ensures |r| <= |cur|
    ensures NonNegative(r)
  {
    Kept(Delays(rows, cur))
  }

  /** bot.py:59-66: replies_by_orig is built, then the second loop reads each message's delay from it. */
  method FirstReplyDeltas(rows: seq<Message>, cur: seq<Message>) returns (deltas: seq<int>)
    ensures deltas == ReplyDeltas(rows, cur)
  {
    var replies := CollectReplies(rows);
    deltas := DelaysFromReplies(replies, cur);
    DelaysFromIndex(rows, replies, cur);
  }

  /** The second loop of bot.py:59-64. */
  method DelaysFromReplies(replies: map<(int, int), seq<int>>, cur: seq<Message>) returns (deltas: seq<int>)
    ensures deltas == Kept(IndexedDelays(replies, cur))
  {
    ghost var ds := IndexedDelays(replies, cur);
    deltas := [];
    for i := 0 to |cur|
      invariant deltas == Kept(ds[..i])
    {
      var r := cur[i];
      var key := (r.chatId, r.messageId);
      KeptStep(ds, i);
      if key in replies && |replies[key]| > 0 {
        var delta := SeqMin(replies[key]) - r.ts;
        if delta >= 0 {
          deltas := deltas + [delta];
        }
      }
    }
    assert ds[..|cur|] == ds;
  }

  /** A message's delay as the loop reads it from replies_by_orig. */
  function DelayOf(replies: map<(int, int), seq<int>>, m: Message): Option<int> {
    var key := MessageKey(m);
    if key in replies && |replies[key]| > 0 then Some(SeqMin(replies[key]) - m.ts) else None
  }

  function IndexedDelays(replies: map<(int, int), seq<int>>, cur: seq<Message>): (ds: seq<Option<int>>)
    ensures |ds| == |cur|
    ensures forall k :: 0 <= k < |cur| ==> ds[k] == DelayOf(replies, cur[k])
  {
    seq(|cur|, k requires 0 <= k < |cur| => DelayOf(replies, cur[k]))
  }

  /** With replies_by_orig built, reading the delays off it gives the first-reply delays. */
  lemma DelaysFromIndex(rows: seq<Message>, replies: map<(int, int), seq<int>>, cur: seq<Message>)
    requires forall key :: key in replies <==> |ReplyTimes(rows, key)| > 0
    requires forall key :: key in replies ==> replies[key] == ReplyTimes(rows, key)
    ensures IndexedDelays(replies, cur) == Delays(rows, cur)
  {
    forall k | 0 <= k < |cur|
      ensures DelayOf(replies, cur[k]) == FirstReplyDelta(rows, cur[k])
    {
      var key := MessageKey(cur[k]);
      DelayOfMessage(rows, replies, cur[k], key in replies, |ReplyTimes(rows, key)| > 0);
    }
  }

  lemma DelayOfMessage(rows: seq<Message>, replies: map<(int, int), seq<int>>, m: Message, indexed: bool, answered: bool)
    requires indexed == (MessageKey(m) in replies) && answered == (|ReplyTimes(rows, MessageKey(m))| > 0)
    requires indexed == answered
    requires indexed ==> replies[MessageKey(m)] == ReplyTimes(rows, MessageKey(m))
    ensures DelayOf(replies, m) == FirstReplyDelta(rows, m)
  {
  }

  lemma KeptStep(ds: seq<Option<int>>, i: int)
    requires 0 <= i < |ds|
    ensures Kept(ds[..i + 1]) == Kept(ds[..i]) + if ds[i].Some? && ds[i].value >= 0 then [ds[i].value] else []
  {
    assert ds[..i + 1][..i] == ds[..i];
  }

  /** Every kept delay is one of the delays. */
  lemma {:induction false} KeptSound(ds: seq<Option<int>>)
    ensures forall i :: 0 <= i < |Kept(ds)| ==> Some(Kept(ds)[i]) in ds
  {
    if |ds| > 0 {
      var init := ds[..|ds| - 1];
      KeptSound(init);
      assert forall x :: x in init ==> x in ds;
    }
  }

  /** Every present, non-negative delay is kept. */
  lemma {:induction false} KeptComplete(ds: seq<Option<int>>, j: int, d: int)
    requires 0 <= j < |ds| && ds[j] == Some(d) && d >= 0
    ensures d in Kept(ds)
  {
    var init := ds[..|ds| - 1];
    if j < |init| {
      assert init[j] == ds[j];
      KeptComplete(init, j, d);
    }
  }

  /** Every delay is the first-reply delay of some current-window message. */
  lemma ReplyDeltasSound(rows: seq<Message>, cur: seq<Message>)
    ensures forall d :: d in ReplyDeltas(rows, cur) ==>
              exists j :: 0 <= j < |cur| && FirstReplyDelta(rows, cur[j]) == Some(d)
  {
    var ds := Delays(rows, cur);
    KeptSound(ds);
    forall d | d in ReplyDeltas(rows, cur)
      ensures exists j :: 0 <= j < |cur| && FirstReplyDelta(rows, cur[j]) == Some(d)
    {
      var i :| 0 <= i < |Kept(ds)| && Kept(ds)[i] == d;
      var j :| 0 <= j < |ds| && ds[j] == Some(d);
      assert FirstReplyDelta(rows, cur[j]) == Some(d);
    }
  }

  /** Every current-window message first answered no earlier than itself contributes its delay. */
  lemma ReplyDeltasComplete(rows: seq<Message>, cur: seq<Message>)
    ensures forall j, d :: 0 <= j < |cur| && FirstReplyDelta(rows, cur[j]) == Some(d) && d >= 0 ==>
              d in ReplyDeltas(rows, cur)
  {
    forall j, d | 0 <= j < |cur| && FirstReplyDelta(rows, cur[j]) == Some(d) && d >= 0
      ensures d in ReplyDeltas(rows, cur)
    {
      KeptComplete(Delays(rows, cur), j, d);
    }
  }

  /** int(percentile(p, first_reply_delta)), or None when no message was answered. */
  function LatencyPercentile(p: real, deltas: seq<int>): (r: Option<int>)
    requires 0.0 <= p <= 1.0
    requires NonNegative(deltas)
    ensures r.None? <==> |deltas| == 0
    ensures r.Some? ==> 0 <= r.value <= SeqMax(deltas)
  {
    if |deltas| == 0 then None
    else
      Util.PercentileBracketed(p, deltas);
      Some(Util.Percentile(p, deltas).Floor)
  }

  // ---------------------------------------------------------------------
  // The weekday/hour heatmap (bot.py:96-108)

  function Cell(ts: int, utcOffset: int): (c: (int, int))
    ensures 0 <= c.0 < 7 && 0 <= c.1 < 24
  {
    (Util.LocalWeekday(ts, utcOffset), Util.LocalHour(ts, utcOffset))
  }

  function Cells(rows: seq<Message>, utcOffset: int): (cells: seq<(int, int)>)
    ensures |cells| == |rows|
    ensures forall i :: 0 <= i < |rows| ==> cells[i] == Cell(rows[i].ts, utcOffset)
  {
    seq(|rows|, i requires 0 <= i < |rows| => Cell(rows[i].ts, utcOffset))
  }

  /** The cells of weekday rows w.. 6, as the heatmap prints them: weekday by weekday, hour by hour. */
  function GridFrom(w: nat): (g: seq<(int, int)>)
    requires w <= 7
    ensures NoDup(g)
    ensures forall c :: c in g <==> w <= c.0 < 7 && 0 <= c.1 < 24
    decreases 7 - w
  {
    if w == 7 then []
    else
      var row: seq<(int, int)> := seq(24, h requires 0 <= h < 24 => (w as int, h));
      var rest := GridFrom(w + 1);
      assert forall c: (int, int) :: c in row <==> c.0 == w && 0 <= c.1 < 24 by {
        forall c: (int, int) | c.0 == w && 0 <= c.1 < 24
          ensures c in row
        {
          assert row[c.1] == c;
        }
      }
      NoDupConcat(row, rest);
      row + rest
  }

  lemma NoDupConcat(a: seq<(int, int)>, b: seq<(int, int)>)
    requires NoDup(a) && NoDup(b)
    requires forall c :: c in a ==> c !in b
    ensures NoDup(a + b)
  {
    forall i, j | 0 <= i < j < |a + b|
      ensures (a + b)[i] != (a + b)[j]
    {
      if j >= |a| && i < |a| {
        assert (a + b)[i] in a && (a + b)[j] in b;
      }
    }
  }

  /** The sum of the heatmap's 7x24 printed cells, counts.get((wd, h), 0) for every cell. */
  function GridTotal(counts: map<(int, int), nat>): nat {
    CellsTotal(GridFrom(0), counts)
  }

  function CellsTotal(g: seq<(int, int)>, counts: map<(int, int), nat>): nat {
    if |g| == 0 then 0 else (if g[0] in counts then counts[g[0]] else 0) + CellsTotal(g[1..], counts)
  }

  lemma {:induction false} CellsTotalIsSumCounts(g: seq<(int, int)>, counts: map<(int, int), nat>, ms: multiset<(int, int)>)
    requires forall c :: c in counts <==> c in ms
    requires forall c :: c in counts ==> counts[c] == ms[c]
    ensures CellsTotal(g, counts) == SumCounts(g, ms)
  {
    if |g| > 0 {
      CellsTotalIsSumCounts(g[1..], counts, ms);
    }
  }

  /** _heatmap_text's counting loop: counts[(weekday, hour)] += 1 per row. */
  method Heatmap(rows: seq<Message>, utcOffset: int) returns (counts: map<(int, int), nat>)
    ensures forall c :: c in counts ==> 0 <= c.0 < 7 && 0 <= c.1 < 24
    ensures forall c :: c in counts <==> c in Cells(rows, utcOffset)
    ensures forall c :: c in counts ==> counts[c] == multiset(Cells(rows, utcOffset))[c]
    ensures GridTotal(counts) == |rows|
  {
    var cells := Cells(rows, utcOffset);
    var order: seq<(int, int)>;
    order, counts := CountKeys(cells);
    GridTotalCountsAll(cells, counts);
  }

  /** Counts that are the multiplicities of cells on the grid add up, over the grid, to the number of cells. */
  lemma GridTotalCountsAll(cells: seq<(int, int)>, counts: map<(int, int), nat>)
    requires forall c :: c in cells ==> 0 <= c.0 < 7 && 0 <= c.1 < 24
    requires forall c :: c in counts <==> c in cells
    requires forall c :: c in counts ==> counts[c] == multiset(cells)[c]
    ensures GridTotal(counts) == |cells|
  {
    var grid := GridFrom(0);
    CellsTotalIsSumCounts(grid, counts, multiset(cells));
    SumCountsCovers(grid, multiset(cells));
  }

  // ---------------------------------------------------------------------
  // Leaders and top talkers (bot.py:38-40, 44, 51, 116-122)

  /** The message count of each active user, in order of first appearance: Counter(user ids).values(). */
  function UserCounts(rows: seq<Message>): seq<int> {
    Multiplicities(Distinct(UserIds(rows)), multiset(UserIds(rows)))
  }

  /**
   * What Counter(user ids).most_common(n) promises: min(n, #users) pairs of
   * a user and their true message count, each user at most once, counts
   * descending, and no user left out with more messages than the last one
   * taken.
   */
  ghost predicate IsLeaderboard(rows: seq<Message>, n: nat, top: seq<(int, int)>) {
    var ids := UserIds(rows);
    && |top| == (if n <= |ActiveUsers(rows)| then n else |ActiveUsers(rows)|)
    && (forall p :: p in top ==> p.0 in ids && p.1 == multiset(ids)[p.0])
    && (forall i, j :: 0 <= i < j < |top| ==> top[i].1 >= top[j].1 && top[i].0 != top[j].0)
    && (|top| > 0 ==> forall u :: u in ids && (u, multiset(ids)[u]) !in top ==>
          multiset(ids)[u] <= top[|top| - 1].1)
  }

  /**
   * Counter(user_id for the rows), its most_common(n) and its list of
   * values.
   */
  method Leaders(rows: seq<Message>, n: nat) returns (top: seq<(int, int)>, counts: seq<int>)
    ensures IsLeaderboard(rows, n, top)
    ensures counts == UserCounts(rows)
    ensures |counts| == |ActiveUsers(rows)|
    ensures Sum(counts) == |rows|
  {
    var ids := UserIds(rows);
    var order, cnt := CountKeys(ids);
    top := MostCommon(Items(order, cnt), n);
    counts := Values(order, cnt);
    CountsAddUp(ids, order, cnt);
    DistinctCount(ids, rows);
    ValuesAreUserCounts(rows, order, cnt);
    LeaderboardOfCounts(rows, n, order, cnt, top);
  }

  /** The values of the counter over the user ids are the users' message counts. */
  lemma ValuesAreUserCounts(rows: seq<Message>, order: seq<int>, cnt: map<int, nat>)
    requires order == Distinct(UserIds(rows))
    requires forall k :: k in cnt <==> k in UserIds(rows)
    requires forall k :: k in cnt ==> cnt[k] == multiset(UserIds(rows))[k]
    ensures Values(order, cnt) == UserCounts(rows)
  {
    var v, m := Values(order, cnt), UserCounts(rows);
    forall i | 0 <= i < |v|
      ensures v[i] == m[i]
    {
      assert order[i] in order;
    }
  }

  /** most_common(n) of the counter over the user ids is a leaderboard of the rows. */
  lemma LeaderboardOfCounts(rows: seq<Message>, n: nat, order: seq<int>, cnt: map<int, nat>, top: seq<(int, int)>)
    requires order == Distinct(UserIds(rows))
    requires forall k :: k in cnt <==> k in UserIds(rows)
    requires forall k :: k in cnt ==> cnt[k] == multiset(UserIds(rows))[k]
    requires top == MostCommon(Items(order, cnt), n)
    ensures IsLeaderboard(rows, n, top)
  {
    DistinctCount(UserIds(rows), rows);
    LeaderboardShape(order, cnt, n, top);
    LeaderboardCounts(rows, n, order, cnt, top);
  }

  /** most_common(n) over a counter with distinct keys: min(n, #keys) pairs, counts descending, no key twice. */
  lemma LeaderboardShape(order: seq<int>, cnt: map<int, nat>, n: nat, top: seq<(int, int)>)
    requires NoDup(order) && forall k :: k in order ==> k in cnt
    requires top == MostCommon(Items(order, cnt), n)
    ensures |top| == (if n <= |order| then n else |order|)
    ensures forall i, j :: 0 <= i < j < |top| ==> top[i].1 >= top[j].1 && top[i].0 != top[j].0
  {
    var items := Items(order, cnt);
    assert |items| == |order|;
    MostCommonKeysDistinct(items, order, n, top);
    forall i, j | 0 <= i < j < |top|
      ensures top[i].1 >= top[j].1 && top[i].0 != top[j].0
    {
    }
  }

  /** most_common(n) over the per-user counter: true counts, and nobody left out has more than the last taken. */
  lemma LeaderboardCounts(rows: seq<Message>, n: nat, order: seq<int>, cnt: map<int, nat>, top: seq<(int, int)>)
    requires order == Distinct(UserIds(rows))
    requires forall k :: k in cnt <==> k in UserIds(rows)
    requires forall k :: k in cnt ==> cnt[k] == multiset(UserIds(rows))[k]
    requires top == MostCommon(Items(order, cnt), n)
    ensures forall p :: p in top ==> p.0 in UserIds(rows) && p.1 == multiset(UserIds(rows))[p.0]
    ensures |top| > 0 ==> forall u :: u in UserIds(rows) && (u, multiset(UserIds(rows))[u]) !in top ==>
              multiset(UserIds(rows))[u] <= top[|top| - 1].1
  {
    var ids, items := UserIds(rows), Items(order, cnt);
    ItemsAreCounts(ids, order, cnt);
    MostCommonSelects(items, n, top);
    TopAreTrueCounts(ids, items, top);
  }

  /** Pairs taken from the true counts are true counts, and every user left out has no more than the last one taken. */
  lemma TopAreTrueCounts(ids: seq<int>, items: seq<(int, int)>, top: seq<(int, int)>)
    requires forall p: (int, int) :: p in items <==> p.0 in ids && p.1 == multiset(ids)[p.0]
    requires forall p :: p in top ==> p in items
    requires |top| > 0 ==> forall p :: p in items && p !in top ==> p.1 <= top[|top| - 1].1
    ensures forall p :: p in top ==> p.0 in ids && p.1 == multiset(ids)[p.0]
    ensures |top| > 0 ==> forall u :: u in ids && (u, multiset(ids)[u]) !in top ==> multiset(ids)[u] <= top[|top| - 1].1
  {
    forall u | |top| > 0 && u in ids && (u, multiset(ids)[u]) !in top
      ensures multiset(ids)[u] <= top[|top| - 1].1
    {
      assert (u, multiset(ids)[u]) in items;
    }
  }

  /** The items of a Counter over ids are exactly the pairs (id, number of occurrences). */
  lemma ItemsAreCounts(ids: seq<int>, order: seq<int>, cnt: map<int, nat>)
    requires order == Distinct(ids)
    requires forall k :: k in cnt <==> k in ids
    requires forall k :: k in cnt ==> cnt[k] == multiset(ids)[k]
    ensures forall p: (int, int) :: p in Items(order, cnt) <==> p.0 in ids && p.1 == multiset(ids)[p.0]
  {
    var items := Items(order, cnt);
    forall p: (int, int) | p in items
      ensures p.0 in ids && p.1 == multiset(ids)[p.0]
    {
      var i :| 0 <= i < |items| && items[i] == p;
      var u := order[i];
      assert items[i] == (u, cnt[u]);
      assert u in order;
      assert u in ids;
      assert u in cnt;
      assert cnt[u] == multiset(ids)[u];
      assert p.0 == u && p.1 == cnt[u];
    }
    forall p: (int, int) | p.0 in ids && p.1 == multiset(ids)[p.0]
      ensures p in items
    {
      assert p.0 in order;
      var i :| 0 <= i < |order| && order[i] == p.0;
      assert items[i] == (p.0, cnt[p.0]);
    }
  }

  lemma DistinctCount(ids: seq<int>, rows: seq<Message>)
    requires ids == UserIds(rows)
    ensures |Distinct(ids)| == |ActiveUsers(rows)|
  {
    var d := Distinct(ids);
    forall u
      ensures u in d <==> u in ActiveUsers(rows)
    {
      if u in ActiveUsers(rows) {
        var i :| 0 <= i < |rows| && rows[i].userId == u;
        assert ids[i] == u;
      }
    }
    NoDupCard(d, ActiveUsers(rows));
  }

  lemma {:induction false} NoDupCard(d: seq<int>, s: set<int>)
    requires NoDup(d)
    requires forall u :: u in d <==> u in s
    ensures |d| == |s|
  {
    if |d| > 0 {
      var rest := s - {d[0]};
      forall u
        ensures u in d[1..] <==> u in rest
      {
        if u in d[1..] {
          var j :| 0 <= j < |d[1..]| && d[1..][j] == u;
          assert d[j + 1] == u && d[0] != d[j + 1];
        }
        if u in rest {
          assert u in d;
          var j :| 0 <= j < |d| && d[j] == u;
          assert j != 0;
          assert d[1..][j - 1] == u;
        }
      }
      NoDupCard(d[1..], rest);
    } else {
      assert forall u :: u !in s;
      assert s == {};
    }
  }

  // ---------------------------------------------------------------------
  // Messages by day (bot.py:67-69, 86-88)

  function Days(rows: seq<Message>, utcOffset: int): (days: seq<int>)
    ensures |days| == |rows|
    ensures forall i :: 0 <= i < |rows| ==> days[i] == Util.LocalDay(rows[i].ts, utcOffset)
  {
    seq(|rows|, i requires 0 <= i < |rows| => Util.LocalDay(rows[i].ts, utcOffset))
  }

  function ByDayKey(p: (int, int)): Key {
    (p.0, 0)
  }

  /**
   * What sorted(by_day.items())[-min(len(by_day), 7):] promises: the
   * latest min(7, #days) days with their true message counts, oldest
   * first, every day left out older than the first one shown.
   */
  ghost predicate IsRecentDays(rows: seq<Message>, utcOffset: int, shown: seq<(int, int)>) {
    var days := Days(rows, utcOffset);
    && |shown| == (if |Distinct(days)| <= 7 then |Distinct(days)| else 7)
    && (forall i, j :: 0 <= i < j < |shown| ==> shown[i].0 < shown[j].0)
    && (forall p :: p in shown ==> p.0 in days && p.1 == multiset(days)[p.0])
    && (|shown| > 0 ==> forall d :: d in days && (d, multiset(days)[d]) !in shown ==> d < shown[0].0)
  }

  /** by_day, the Counter of the rows' local days, and the last seven of its sorted items. */
  method RecentDays(rows: seq<Message>, utcOffset: int) returns (shown: seq<(int, int)>)
    ensures IsRecentDays(rows, utcOffset, shown)
  {
    var days := Days(rows, utcOffset);
    var order, counts := CountKeys(days);
    var items := Items(order, counts);
    var sorted := SortBy(items, ByDayKey);
    var k := if |sorted| <= 7 then |sorted| else 7;
    shown := sorted[|sorted| - k..];
    SuffixOfSortedDays(items, sorted, order, k, shown);
    ItemsAreCounts(days, order, counts);
    ShownAreDayCounts(days, items, sorted, shown);
  }

  /** The shown pairs, taken from the day counts, are day counts, and every day left out is older than the first shown. */
  lemma ShownAreDayCounts(days: seq<int>, items: seq<(int, int)>, sorted: seq<(int, int)>, shown: seq<(int, int)>)
    requires forall p: (int, int) :: p in items <==> p.0 in days && p.1 == multiset(days)[p.0]
    requires multiset(sorted) == multiset(items)
    requires forall p :: p in shown ==> p in sorted
    requires |shown| > 0 ==> forall p :: p in multiset(sorted) && p !in shown ==> p.0 < shown[0].0
    ensures forall p :: p in shown ==> p.1 == multiset(days)[p.0] && p.0 in days
    ensures |shown| > 0 ==> forall d :: d in days && (d, multiset(days)[d]) !in shown ==> d < shown[0].0
  {
    forall p | p in shown
      ensures p.1 == multiset(days)[p.0] && p.0 in days
    {
      assert p in multiset(sorted);
      assert p in multiset(items);
    }
    forall d | |shown| > 0 && d in days && (d, multiset(days)[d]) !in shown
      ensures d < shown[0].0
    {
      assert (d, multiset(days)[d]) in items;
      assert (d, multiset(days)[d]) in multiset(sorted);
    }
  }

  /** Sorting the items of a dictionary by key: keys strictly ascend and the last k are the latest. */
  lemma SuffixOfSortedDays(items: seq<(int, int)>, sorted: seq<(int, int)>, order: seq<int>, k: nat, shown: seq<(int, int)>)
    requires |items| == |order| && NoDup(order)
    requires forall i :: 0 <= i < |items| ==> items[i].0 == order[i]
    requires SortedBy(sorted, ByDayKey) && multiset(sorted) == multiset(items)
    requires k <= |sorted| && shown == sorted[|sorted| - k..]
    ensures forall i, j :: 0 <= i < j < |shown| ==> shown[i].0 < shown[j].0
    ensures k > 0 ==> forall p :: p in multiset(sorted) && p !in shown ==> p.0 < shown[0].0
  {
    assert DistinctKeys(items);
    PermutationKeepsKeysDistinct(items, sorted);
    forall i, j | 0 <= i < j < |sorted|
      ensures sorted[i].0 < sorted[j].0
    {
      assert KeyLe(ByDayKey(sorted[i]), ByDayKey(sorted[j]));
    }
    forall p | k > 0 && p in multiset(sorted) && p !in shown
      ensures p.0 < shown[0].0
    {
      var j :| 0 <= j < |sorted| && sorted[j] == p;
      forall t | |sorted| - k <= t < |sorted|
        ensures sorted[t] in shown
      {
        assert shown[t - (|sorted| - k)] == sorted[t];
      }
      assert shown[0] == sorted[|sorted| - k];
    }
  }

  // ---------------------------------------------------------------------
  // metrics_summary (bot.py:26-89)

  /** The figures metrics_summary reports, before they are formatted as text. */
  datatype Summary = Summary(
    totalCur: nat,
    totalPrev: nat,
    deltaTotal: int,
    activeUsers: nat,
    newUsers: nat,
    returningUsers: nat,
    p50: real,
    p90: real,
    p99: real,
    topTalkers: seq<(int, int)>,
    replyCount: nat,
    topRepliers: seq<(int, int)>,
    medianReply: Option<int>,
    p95Reply: Option<int>,
    byDay: seq<(int, int)>)

  function RepliesOf(rows: seq<Message>): (r: seq<Message>)
    ensures |r| <= |rows|
    ensures forall i :: 0 <= i < |r| ==> r[i].replyTo.Some?
    ensures forall m :: multiset(r)[m] == if m.replyTo.Some? then multiset(rows)[m] else 0
    ensures forall m :: m in r <==> m in rows && m.replyTo.Some?
  {
    Filter(rows, (m: Message) => m.replyTo.Some?)
  }

  /**
   * The rows fetched from prev_start on fall exactly into the current and
   * the previous window.
   */
  lemma FetchedWindowsPartition(msgs: seq<Message>, chatId: int, start: int, days: int)
    requires days >= 0
    ensures var rows := MessagesSince(msgs, WindowStart(start, days), chatId);
      |CurrentWindow(rows, start)| + |PreviousWindow(rows, WindowStart(start, days), start)| == |rows|
  {
    var prevStart := WindowStart(start, days);
    var rows := MessagesSince(msgs, prevStart, chatId);
    forall i | 0 <= i < |rows|
      ensures rows[i].ts >= prevStart
    {
      assert rows[i] in rows;
    }
    WindowsPartition(rows, prevStart, start);
  }

  lemma NewAndReturningCount(active: set<int>, firstTs: map<int, int>, start: int)
    ensures |NewUsers(active, firstTs, start)| + |ReturningUsers(active, firstTs, start)| == |active|
  {
    var n, r := NewUsers(active, firstTs, start), ReturningUsers(active, firstTs, start);
    assert active == n + r && n !! r;
  }

  /**
   * The reply figures of metrics_summary: how many current-window rows are
   * replies, the five most frequent repliers, and the median and 95th
   * percentile of the time to first reply.
   */
  method ReplyStats(rows: seq<Message>, cur: seq<Message>)
    returns (replyCount: nat, topRepliers: seq<(int, int)>, medianReply: Option<int>, p95Reply: Option<int>)
    ensures replyCount == |RepliesOf(cur)| <= |cur|
    ensures IsLeaderboard(RepliesOf(cur), 5, topRepliers)
    ensures medianReply.None? <==> |ReplyDeltas(rows, cur)| == 0
    ensures medianReply == LatencyPercentile(0.5, ReplyDeltas(rows, cur))
    ensures p95Reply == LatencyPercentile(0.95, ReplyDeltas(rows, cur))
    ensures medianReply.Some? ==> medianReply.value >= 0
    ensures p95Reply.Some? ==> p95Reply.value >= 0
  {
    var replies := RepliesOf(cur);
    replyCount := |replies|;
    var replierCounts;
    topRepliers, replierCounts := Leaders(replies, 5);
    var deltas := FirstReplyDeltas(rows, cur);
    medianReply := LatencyPercentile(0.5, deltas);
    p95Reply := LatencyPercentile(0.95, deltas);
  }

  /** The user figures of metrics_summary: active, new and returning users. */
  method UserStats(msgs: seq<Message>, chatId: int, cur: seq<Message>, start: int)
    returns (activeUsers: nat, newUsers: nat, returningUsers: nat)
    ensures activeUsers == |ActiveUsers(cur)|
    ensures newUsers == |NewUsers(ActiveUsers(cur), FirstTsPerUser(msgs, chatId), start)|
    ensures returningUsers == |ReturningUsers(ActiveUsers(cur), FirstTsPerUser(msgs, chatId), start)|
    ensures newUsers + returningUsers == activeUsers
  {
    var active := ActiveUsers(cur);
    var firstTs := FirstTsPerUser(msgs, chatId);
    NewAndReturningCount(active, firstTs, start);
    activeUsers := |active|;
    newUsers := |NewUsers(active, firstTs, start)|;
    returningUsers := |ReturningUsers(active, firstTs, start)|;
  }

  /** The talker figures of metrics_summary: the top five and the percentiles of the per-user counts. */
  method TalkerStats(cur: seq<Message>) returns (top: seq<(int, int)>, p50: real, p90: real, p99: real)
    ensures IsLeaderboard(cur, 5, top)
    ensures p50 == Util.Percentile(0.5, UserCounts(cur))
    ensures p90 == Util.Percentile(0.9, UserCounts(cur))
    ensures p99 == Util.Percentile(0.99, UserCounts(cur))
  {
    var counts;
    top, counts := Leaders(cur, 5);
    p50, p90, p99 := Util.Percentile(0.5, counts), Util.Percentile(0.9, counts), Util.Percentile(0.99, counts);
  }

  /**
   * metrics_summary over the messages table at time now, for the chat
   * chat_id and the window length days.
   */
  method MetricsSummary(msgs: seq<Message>, chatId: int, now: int, days: int, utcOffset: int) returns (s: Summary)
    ensures var start := WindowStart(now, days);
            var rows := MessagesSince(msgs, WindowStart(start, days), chatId);
            var cur := CurrentWindow(rows, start);
            && s.totalCur == |cur|
            && s.totalPrev == |PreviousWindow(rows, WindowStart(start, days), start)|
            && (days >= 0 ==> s.totalCur + s.totalPrev == |rows|)
            && s.activeUsers == |ActiveUsers(cur)|
            && s.newUsers == |NewUsers(ActiveUsers(cur), FirstTsPerUser(msgs, chatId), start)|
            && s.returningUsers == |ReturningUsers(ActiveUsers(cur), FirstTsPerUser(msgs, chatId), start)|
            && s.p50 == Util.Percentile(0.5, UserCounts(cur))
            && s.p90 == Util.Percentile(0.9, UserCounts(cur))
            && s.p99 == Util.Percentile(0.99, UserCounts(cur))
            && IsLeaderboard(cur, 5, s.topTalkers)
            && s.replyCount == |RepliesOf(cur)|
            && IsLeaderboard(RepliesOf(cur), 5, s.topRepliers)
            && s.medianReply == LatencyPercentile(0.5, ReplyDeltas(rows, cur))
            && s.p95Reply == LatencyPercentile(0.95, ReplyDeltas(rows, cur))
            && IsRecentDays(cur, utcOffset, s.byDay)
    ensures s.deltaTotal == s.totalCur - s.totalPrev
    ensures s.newUsers + s.returningUsers == s.activeUsers
    ensures s.replyCount <= s.totalCur
    ensures s.medianReply.Some? ==> s.medianReply.value >= 0
    ensures s.p95Reply.Some? ==> s.p95Reply.value >= 0
  {
    var start := WindowStart(now, days);
    var prevStart := WindowStart(start, days);
    var rows := MessagesSince(msgs, prevStart, chatId);
    var cur := CurrentWindow(rows, start);
    var prev := PreviousWindow(rows, prevStart, start);
    if days >= 0 {
      FetchedWindowsPartition(msgs, chatId, start, days);
    }
    var top, p50, p90, p99 := TalkerStats(cur);
    var activeUsers, newUsers, returningUsers := UserStats(msgs, chatId, cur, start);
    var replyCount, topRepliers, medianReply, p95Reply := ReplyStats(rows, cur);
    var byDay := RecentDays(cur, utcOffset);
    s := Summary(
      |cur|, |prev|, |cur| - |prev|,
      activeUsers, newUsers, returningUsers,
      p50, p90, p99,
      top, replyCount, topRepliers, medianReply, p95Reply, byDay);
  }
}
