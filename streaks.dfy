/**
 * _streaks_text in bot.py: each user's days with messages, the longest run of
 * consecutive such days, the streak list ordered by length, and the users
 * at risk of counting as inactive.
 */
module Streaks {
  import opened Wrappers
  import opened Seqs
  import Util
  import opened Db
  import opened Counting
  import Metrics

  // ---------------------------------------------------------------------
  // longest_streak (bot.py:138-148)

  /** Every day start, start + 1, ..., start + len - 1 is among the dates. */
  ghost predicate IsRun(dates: set<int>, start: int, len: nat) {
    forall d :: start <= d < start + len ==> d in dates
  }

  /** A run of len days whose last day is `last`. */
  ghost predicate EndsRun(dates: set<int>, last: int, len: nat) {
    IsRun(dates, last - len + 1, len)
  }

  /** n is the length of the longest run of consecutive days in dates (0 when there is none). */
  ghost predicate IsLongestStreak(dates: set<int>, n: nat) {
    && (exists start :: IsRun(dates, start, n))
    && (forall start, len: nat :: IsRun(dates, start, len) ==> len <= n)
  }

  /** A run ending at `last` that cannot be extended backwards is the longest one ending there. */
  lemma LongestEndingAt(dates: set<int>, last: int, cur: nat, len: nat)
    requires EndsRun(dates, last, cur) && last - cur !in dates
    requires EndsRun(dates, last, len)
    ensures len <= cur
  {
    assert len > cur ==> last - len + 1 <= last - cur <= last;
  }

  /** Appending the next day extends the run ending the day before. */
  lemma ExtendRun(dates: set<int>, last: int, cur: nat)
    requires EndsRun(dates, last, cur) && last + 1 in dates
    ensures EndsRun(dates, last + 1, cur + 1)
  {
    forall d | last - cur + 1 <= d < last + 2
      ensures d in dates
    {
      if d <= last {
        assert last - cur + 1 <= d < last + 1;
      }
    }
  }

  /** The facts the loop of LongestStreak keeps about the run ending at s[i]. */
  ghost predicate MaximalRunAt(dates: set<int>, last: int, cur: nat) {
    && EndsRun(dates, last, cur)
    && last - cur !in dates
    && forall len: nat :: EndsRun(dates, last, len) ==> len <= cur
  }

  ghost predicate SortedCover(dates: set<int>, s: seq<int>) {
    && (forall a, b :: 0 <= a < b < |s| ==> s[a] < s[b])
    && (forall d :: d in s <==> d in dates)
  }

  /** The first day starts a run of one. */
  lemma FirstRun(dates: set<int>, s: seq<int>)
    requires SortedCover(dates, s) && |s| > 0
    ensures MaximalRunAt(dates, s[0], 1)
  {
    assert s[0] in s;
    assert IsRun(dates, s[0], 1);
    forall k | 0 < k < |s|
      ensures s[0] < s[k]
    {
    }
    forall len | EndsRun(dates, s[0], len)
      ensures len <= 1
    {
      LongestEndingAt(dates, s[0], 1, len);
    }
  }

  /** The run ending at s[i] grows by one after a consecutive day and restarts at 1 after a gap. */
  lemma NextRun(dates: set<int>, s: seq<int>, i: int, cur: nat)
    requires SortedCover(dates, s) && 0 < i < |s|
    requires MaximalRunAt(dates, s[i - 1], cur)
    ensures MaximalRunAt(dates, s[i], if s[i] == s[i - 1] + 1 then cur + 1 else 1)
  {
    assert s[i] in s;
    var next := if s[i] == s[i - 1] + 1 then cur + 1 else 1;
    if s[i] == s[i - 1] + 1 {
      ExtendRun(dates, s[i - 1], cur);
    } else {
      assert IsRun(dates, s[i], 1);
      forall k | 0 <= k < |s|
        ensures s[k] <= s[i - 1] || s[i] <= s[k]
      {
        if k < i - 1 {
          assert s[k] < s[i - 1];
        } else if k > i {
          assert s[i] < s[k];
        }
      }
    }
    forall len: nat | EndsRun(dates, s[i], len)
      ensures len <= next
    {
      LongestEndingAt(dates, s[i], next, len);
    }
  }

  /** Every run ends on one of the days, so bounding the runs ending at each day bounds them all. */
  lemma AllRunsBounded(dates: set<int>, s: seq<int>, best: nat)
    requires SortedCover(dates, s)
    requires forall j, len: nat :: 0 <= j < |s| && EndsRun(dates, s[j], len) ==> len <= best
    ensures forall start, len: nat :: IsRun(dates, start, len) ==> len <= best
  {
    forall start, len: nat | IsRun(dates, start, len)
      ensures len <= best
    {
      if len > 0 {
        assert start + len - 1 in dates;
        var j :| 0 <= j < |s| && s[j] == start + len - 1;
        assert EndsRun(dates, s[j], len);
      }
    }
  }

  /** longest_streak: one pass over the sorted days, counting the current run and the best one. */
  method LongestStreak(dates: set<int>) returns (best: nat)
    ensures IsLongestStreak(dates, best)
  {
    if dates == {} {
      AllRunsBounded(dates, [], 0);
      assert IsRun(dates, 0, 0);
      return 0;
    }
    var s := SortedSet(dates);
    var cur: nat := 1;
    best := 1;
    FirstRun(dates, s);
    for i := 1 to |s|
      invariant 1 <= cur <= best
      invariant MaximalRunAt(dates, s[i - 1], cur)
      invariant exists start :: IsRun(dates, start, best)
      invariant forall j, len: nat :: 0 <= j < i && EndsRun(dates, s[j], len) ==> len <= best
    {
      NextRun(dates, s, i, cur);
      if s[i] == s[i - 1] + 1 {
        cur := cur + 1;
        if cur > best {
          best := cur;
          assert IsRun(dates, s[i] - cur + 1, best);
        }
      } else {
        cur := 1;
      }
    }
    AllRunsBounded(dates, s, best);
  }

  /** The longest streak of a set of days is one number. */
  lemma StreakUnique(dates: set<int>, a: nat, b: nat)
    requires IsLongestStreak(dates, a) && IsLongestStreak(dates, b)
    ensures a == b
  {
    var sa :| IsRun(dates, sa, a);
    var sb :| IsRun(dates, sb, b);
  }

  lemma StreakOfNoDays(dates: set<int>, n: nat)
    requires dates == {} && IsLongestStreak(dates, n)
    ensures n == 0
  {
    var start :| IsRun(dates, start, n);
    assert start !in dates;
  }

  lemma StreakOfOneDay(dates: set<int>, d: int, n: nat)
    requires dates == {d} && IsLongestStreak(dates, n)
    ensures n == 1
  {
    assert IsRun(dates, d, 1);
    var start :| IsRun(dates, start, n);
    assert (start in dates ==> start == d) && (start + 1 in dates ==> start + 1 == d);
  }

  /** Days d, d+1, d+2 and d+4: the gap at d+3 ends the streak at 3. */
  lemma StreakWithGap(d: int, n: nat)
    requires IsLongestStreak({d, d + 1, d + 2, d + 4}, n)
    ensures n == 3
  {
    var dates := {d, d + 1, d + 2, d + 4};
    assert IsRun(dates, d, 3);
    var start :| IsRun(dates, start, n);
    assert n > 3 ==> start in dates && start + 1 in dates && start + 2 in dates && start + 3 in dates;
  }

  /** The days start .. start + len - 1. */
  function Span(start: int, len: nat): (r: set<int>)
    ensures |r| == len
    ensures forall d :: d in r <==> start <= d < start + len
  {
    if len == 0 then {}
    else
      var r := Span(start, len - 1);
      assert start + len - 1 !in r;
      r + {start + len - 1}
  }

  /** A streak never exceeds the number of distinct days. */
  lemma StreakAtMostDays(dates: set<int>, n: nat)
    requires IsLongestStreak(dates, n)
    ensures n <= |dates|
  {
    var start :| IsRun(dates, start, n);
    var span := Span(start, n);
    assert span <= dates by {
      forall d | d in span
        ensures d in dates
      {
        assert start <= d < start + n;
      }
    }
    assert |span| <= |dates| by {
      SubsetCard(span, dates);
    }
  }

  lemma {:induction false} SubsetCard(a: set<int>, b: set<int>)
    requires a <= b
    ensures |a| <= |b|
    decreases |a|
  {
    if a != {} {
      assert (forall y :: y !in a) ==> a == {};
      var x :| x in a;
      SubsetCard(a - {x}, b - {x});
    }
  }

  // ---------------------------------------------------------------------
  // by_user_dates and the streak list (bot.py:134-137, 149-150)

  /** The local days on which u wrote one of the rows. */
  ghost function ActiveDays(rows: seq<Message>, u: int, utcOffset: int): set<int> {
    set i | 0 <= i < |rows| && rows[i].userId == u :: Util.LocalDay(rows[i].ts, utcOffset)
  }

  lemma ActiveDaysAppend(rows: seq<Message>, i: int, u: int, utcOffset: int)
    requires 0 <= i < |rows|
    ensures ActiveDays(rows[..i + 1], u, utcOffset)
         == ActiveDays(rows[..i], u, utcOffset)
            + (if rows[i].userId == u then {Util.LocalDay(rows[i].ts, utcOffset)} else {})
  {
    var a, b := rows[..i + 1], rows[..i];
    assert forall j :: 0 <= j < i ==> a[j] == b[j];
    assert a[i] == rows[i];
  }

  /** byUser has an entry for exactly the users of rows, holding that user's local days. */
  ghost predicate DaysIndexed(byUser: map<int, set<int>>, rows: seq<Message>, utcOffset: int) {
    && (forall u :: u in byUser <==> u in Metrics.UserIds(rows))
    && (forall u :: u in byUser ==> byUser[u] == ActiveDays(rows, u, utcOffset))
  }

  /** Adding row i's day to its user's set keeps the index exact for one more row. */
  lemma DaysIndexedStep(rows: seq<Message>, i: int, utcOffset: int, byUser: map<int, set<int>>)
    requires 0 <= i < |rows|
    requires DaysIndexed(byUser, rows[..i], utcOffset)
    ensures var u, day := rows[i].userId, Util.LocalDay(rows[i].ts, utcOffset);
            DaysIndexed(byUser[u := if u in byUser then byUser[u] + {day} else {day}], rows[..i + 1], utcOffset)
  {
    var u, day := rows[i].userId, Util.LocalDay(rows[i].ts, utcOffset);
    var after := byUser[u := if u in byUser then byUser[u] + {day} else {day}];
    assert Metrics.UserIds(rows[..i + 1]) == Metrics.UserIds(rows[..i]) + [u];
    forall v | v in after
      ensures after[v] == ActiveDays(rows[..i + 1], v, utcOffset)
    {
      ActiveDaysAppend(rows, i, v, utcOffset);
    }
  }

  /** The loop filling by_user_dates: by_user_dates[user].add(day) for every row. */
  method DatesByUser(rows: seq<Message>, utcOffset: int) returns (users: seq<int>, byUser: map<int, set<int>>)
    ensures users == Distinct(Metrics.UserIds(rows))
    ensures forall u :: u in byUser <==> u in Metrics.UserIds(rows)
    ensures forall u :: u in byUser ==> byUser[u] == ActiveDays(rows, u, utcOffset)
  {
    users := [];
    byUser := map[];
    for i := 0 to |rows|
      invariant users == Distinct(Metrics.UserIds(rows[..i]))
      invariant DaysIndexed(byUser, rows[..i], utcOffset)
    {
      var u := rows[i].userId;
      var day := Util.LocalDay(rows[i].ts, utcOffset);
      DaysIndexedStep(rows, i, utcOffset, byUser);
      ghost var ids := Metrics.UserIds(rows[..i + 1]);
      assert ids[..i] == Metrics.UserIds(rows[..i]) && ids[i] == u;
      if u in byUser {
        byUser := byUser[u := byUser[u] + {day}];
      } else {
        users := users + [u];
        byUser := byUser[u := {day}];
      }
    }
    assert rows[..|rows|] == rows;
  }

  /** The sort key of bot.py:150: longest streak first, then the smaller user id. */
  function StreakKey(p: (int, int)): Key {
    (-p.1, p.0)
  }

  /** streaks = [(u, longest_streak(dates)) ...] sorted by (-streak, user). */
  method StreakList(users: seq<int>, byUser: map<int, set<int>>) returns (streaks: seq<(int, int)>)
    requires forall i :: 0 <= i < |users| ==> users[i] in byUser
    ensures |streaks| == |users|
    ensures forall p :: p in streaks ==> p.0 in users && p.0 in byUser && p.1 >= 0 && IsLongestStreak(byUser[p.0], p.1)
    ensures forall u :: u in users ==> exists p :: p in streaks && p.0 == u
    ensures SortedBy(streaks, StreakKey)
    ensures NoDup(users) ==> DistinctKeys(streaks)
  {
    var unsorted: seq<(int, int)> := [];
    for i := 0 to |users|
      invariant |unsorted| == i
      invariant forall k :: 0 <= k < i ==> unsorted[k].0 == users[k]
      invariant forall k :: 0 <= k < i ==> unsorted[k].1 >= 0 && IsLongestStreak(byUser[users[k]], unsorted[k].1)
    {
      var n := LongestStreak(byUser[users[i]]);
      unsorted := unsorted + [(users[i], n)];
    }
    streaks := SortBy(unsorted, StreakKey);
    if NoDup(users) {
      assert DistinctKeys(unsorted);
      PermutationKeepsKeysDistinct(unsorted, streaks);
    }
    forall p | p in streaks
      ensures p.0 in users && p.0 in byUser && p.1 >= 0 && IsLongestStreak(byUser[p.0], p.1)
    {
      assert p in multiset(unsorted);
      var k :| 0 <= k < |unsorted| && unsorted[k] == p;
      assert users[k] in users;
    }
    forall u | u in users
      ensures exists p :: p in streaks && p.0 == u
    {
      var k :| 0 <= k < |users| && users[k] == u;
      assert unsorted[k] in multiset(streaks);
    }
  }

  /** The streak list depends only on which (user, streak) pairs it holds, not on dict order. */
  lemma StreakListOrderFree(a: seq<(int, int)>, b: seq<(int, int)>)
    requires SortedBy(a, StreakKey) && SortedBy(b, StreakKey)
    requires multiset(a) == multiset(b)
    ensures a == b
  {
    SortedUnique(a, b, StreakKey);
  }

  /**
   * Two streak lists built over the same users, each named once, are
   * equal whatever order the users came in: the dict order of by_user_dates
   * does not show in the report.
   */
  lemma StreakListsAgree(usersA: seq<int>, usersB: seq<int>, byUser: map<int, set<int>>,
                         a: seq<(int, int)>, b: seq<(int, int)>)
    requires forall u :: u in usersA <==> u in usersB
    requires SortedBy(a, StreakKey) && DistinctKeys(a)
    requires SortedBy(b, StreakKey) && DistinctKeys(b)
    requires forall p :: p in a ==> p.0 in usersA && p.0 in byUser && p.1 >= 0 && IsLongestStreak(byUser[p.0], p.1)
    requires forall p :: p in b ==> p.0 in usersB && p.0 in byUser && p.1 >= 0 && IsLongestStreak(byUser[p.0], p.1)
    requires forall u :: u in usersA ==> exists p :: p in a && p.0 == u
    requires forall u :: u in usersB ==> exists p :: p in b && p.0 == u
    ensures a == b
  {
    forall p | p in a
      ensures p in b
    {
      var q :| q in b && q.0 == p.0;
      StreakUnique(byUser[p.0], p.1, q.1);
    }
    forall p | p in b
      ensures p in a
    {
      var q :| q in a && q.0 == p.0;
      StreakUnique(byUser[p.0], p.1, q.1);
    }
    forall p
      ensures multiset(a)[p] == multiset(b)[p]
    {
      OccursOnce(a, p);
      OccursOnce(b, p);
      if p in a {
        assert p in multiset(a) && p in multiset(b);
      } else {
        assert p !in multiset(a) && p !in multiset(b);
      }
    }
    assert multiset(a) == multiset(b);
    StreakListOrderFree(a, b);
  }

  // ---------------------------------------------------------------------
  // Users at risk (bot.py:155-159)

  /** risk_threshold = now - (inactivity_days - 1) * 86400. */
  function RiskThreshold(now: int, inactivityDays: int): int {
    now - (inactivityDays - 1) * Util.DaySeconds
  }

  /** Whole days since ts; Python's // and Dafny's / agree for a positive divisor. */
  function DaysSince(now: int, ts: int): int {
    (now - ts) / Util.DaySeconds
  }

  function RiskEntries(lastTs: seq<(int, int)>, threshold: int, now: int): (r: seq<(int, int)>)
    ensures |r| <= |lastTs|
  {
    if |lastTs| == 0 then []
    else
      var q := lastTs[0];
      (if q.1 < threshold then [(q.0, DaysSince(now, q.1))] else []) + RiskEntries(lastTs[1..], threshold, now)
  }

  /** The entries are exactly the users last seen before the threshold, with whole days since then. */
  lemma {:induction false} RiskEntriesMembers(lastTs: seq<(int, int)>, threshold: int, now: int)
    ensures forall p :: p in RiskEntries(lastTs, threshold, now) <==>
              exists q :: q in lastTs && q.1 < threshold && p == (q.0, DaysSince(now, q.1))
  {
    if |lastTs| > 0 {
      RiskEntriesMembers(lastTs[1..], threshold, now);
      assert forall x :: x in lastTs <==> x == lastTs[0] || x in lastTs[1..];
    }
  }

  /** A dictionary's items give at most one entry per user. */
  lemma {:induction false} RiskEntriesDistinct(lastTs: seq<(int, int)>, threshold: int, now: int)
    requires DistinctKeys(lastTs)
    ensures DistinctKeys(RiskEntries(lastTs, threshold, now))
  {
    if |lastTs| > 0 {
      var q, tail := lastTs[0], lastTs[1..];
      assert DistinctKeys(tail) by {
        forall i, j | 0 <= i < j < |tail|
          ensures tail[i].0 != tail[j].0
        {
          assert tail[i] == lastTs[i + 1] && tail[j] == lastTs[j + 1];
        }
      }
      RiskEntriesDistinct(tail, threshold, now);
      var rest := RiskEntries(tail, threshold, now);
      RiskEntriesMembers(tail, threshold, now);
      var head: seq<(int, int)> := if q.1 < threshold then [(q.0, DaysSince(now, q.1))] else [];
      assert RiskEntries(lastTs, threshold, now) == head + rest;
      forall j | 0 <= j < |rest|
        ensures rest[j].0 != q.0
      {
        assert rest[j] in rest;
        var t :| t in tail && t.1 < threshold && rest[j] == (t.0, DaysSince(now, t.1));
        var k :| 0 <= k < |tail| && tail[k] == t;
        assert lastTs[k + 1] == t;
      }
    }
  }

  /**
   * risk: the (user, whole days since the last message) pairs of the users
   * whose last message is before the threshold, most days first. lastTs is
   * last_ts.items().
   */
  function AtRisk(lastTs: seq<(int, int)>, now: int, inactivityDays: int): (risk: seq<(int, int)>)
    ensures |risk| <= |lastTs|
    ensures forall i, j :: 0 <= i < j < |risk| ==> risk[i].1 >= risk[j].1
  {
    var risk := SortBy(RiskEntries(lastTs, RiskThreshold(now, inactivityDays), now), ByCountDescending);
    SortedByCountDescends(risk);
    risk
  }

  /** A pair for exactly the users quiet since before the threshold, each at least inactivity_days-1 days. */
  lemma AtRiskMembers(lastTs: seq<(int, int)>, now: int, inactivityDays: int, risk: seq<(int, int)>)
    requires risk == AtRisk(lastTs, now, inactivityDays)
    ensures forall p :: p in risk <==>
              exists q :: q in lastTs && q.1 < RiskThreshold(now, inactivityDays) && p == (q.0, DaysSince(now, q.1))
    ensures forall p :: p in risk ==> p.1 >= inactivityDays - 1
  {
    var threshold := RiskThreshold(now, inactivityDays);
    var entries := RiskEntries(lastTs, threshold, now);
    assert risk == SortBy(entries, ByCountDescending);
    RiskEntriesMembers(lastTs, threshold, now);
    SameElements(entries, risk);
    forall p | p in risk
      ensures p.1 >= inactivityDays - 1
    {
      var q :| q in lastTs && q.1 < threshold && p == (q.0, DaysSince(now, q.1));
      DaysSinceBound(now, q.1, inactivityDays);
    }
  }

  /** With last_ts a dictionary, every user is listed at risk at most once. */
  lemma AtRiskDistinct(lastTs: seq<(int, int)>, now: int, inactivityDays: int, risk: seq<(int, int)>)
    requires DistinctKeys(lastTs)
    requires risk == AtRisk(lastTs, now, inactivityDays)
    ensures forall i, j :: 0 <= i < j < |risk| ==> risk[i].0 != risk[j].0
  {
    var entries := RiskEntries(lastTs, RiskThreshold(now, inactivityDays), now);
    assert risk == SortBy(entries, ByCountDescending);
    RiskEntriesDistinct(lastTs, RiskThreshold(now, inactivityDays), now);
    PermutationKeepsKeysDistinct(entries, risk);
  }

  lemma DaysSinceBound(now: int, ts: int, inactivityDays: int)
    requires ts < RiskThreshold(now, inactivityDays)
    ensures DaysSince(now, ts) >= inactivityDays - 1
  {
  }

  /**
   * With last_ts read from the messages table, a user of the chat is listed
   * at risk exactly when every message of theirs there is before the
   * threshold.
   */
  lemma AtRiskIffQuiet(msgs: seq<Message>, chatId: int, lastTs: seq<(int, int)>, now: int, inactivityDays: int, u: int)
    requires var last := LastTsPerUser(msgs, chatId);
      forall q :: q in lastTs <==> q.0 in last && q.1 == last[q.0]
    requires u in Writers(msgs, chatId)
    ensures (exists p :: p in AtRisk(lastTs, now, inactivityDays) && p.0 == u)
        <==> forall i :: 0 <= i < |msgs| && msgs[i].chatId == chatId && msgs[i].userId == u ==>
               msgs[i].ts < RiskThreshold(now, inactivityDays)
  {
    var last := LastTsPerUser(msgs, chatId);
    LastTsIsLatest(msgs, chatId);
    var threshold := RiskThreshold(now, inactivityDays);
    var risk := AtRisk(lastTs, now, inactivityDays);
    AtRiskMembers(lastTs, now, inactivityDays, risk);
    assert (u, last[u]) in lastTs;
    if exists p :: p in risk && p.0 == u {
      var p :| p in risk && p.0 == u;
      var q :| q in lastTs && q.1 < threshold && p == (q.0, DaysSince(now, q.1));
      assert q.1 == last[u];
    }
    if forall i :: 0 <= i < |msgs| && msgs[i].chatId == chatId && msgs[i].userId == u ==> msgs[i].ts < threshold {
      assert WroteAt(msgs, chatId, u, last[u]);
      assert (u, DaysSince(now, last[u])) in risk;
    }
  }
}
