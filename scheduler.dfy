/**
 * The scheduled-post dispatcher of bot.py: /schedule_day opens a batch for
 * a day, schedule_collect_photo gathers eight photos and then stores eight
 * pending posts and registers a job for each, post_photo_job moves a pending
 * post to sent or failed, and _reload_scheduled_posts registers the pending
 * posts again after a restart.
 */
module Scheduler {
  import opened Wrappers
  import opened Seqs
  import opened Db
  import opened Counting
  import Util

  /** Photos per batch. */
  const BatchSize := 8

  /** The first post goes out at 12:30 local time, then every 90 minutes. */
  const FirstPostMinute := 12 * 60 + 30
  const GapMinutes := 90

  /** The time post i of a batch is meant for, before jitter: 12:30 + 90 i minutes on the day. */
  function NominalRunAt(day: int, i: int, utcOffset: int): int {
    day * Util.DaySeconds + (FirstPostMinute + GapMinutes * i) * 60 - utcOffset
  }

  /** What strptime makes of the /schedule_day argument. */
  datatype DateArgument = NoArgument | Malformed | Date(day: int)

  datatype ScheduleDayReply = SetChannelFirst | DayUsage | BadDate | AwaitingPhotos

  datatype CollectReply =
    | NotAPhoto                     // no photo and no image document: nothing happens
    | BatchFull                     // eight photos are already waiting
    | Saved(count: nat)             // "Saved n/8"
    | MissingDate                   // the eighth photo arrived without /schedule_day (KeyError)
    | BadJitter                     // a negative jitter makes random.randint fail
    | NoJobQueue
    | Scheduled(ids: seq<int>, times: seq<int>)

  /** A post whose row is stored but not sent yet, as _reload_scheduled_posts selects it. */
  predicate DueLater(p: ScheduledPost, now: int) {
    p.status == Pending && p.runAtTs > now
  }

  /** The registrations _reload_scheduled_posts makes for the given ids, in order. */
  function Registrations(posts: map<int, ScheduledPost>, ids: seq<int>, now: int): (r: seq<(int, int)>)
    requires forall i :: 0 <= i < |ids| ==> ids[i] in posts
    ensures |r| <= |ids|
  {
    if |ids| == 0 then []
    else
      var id := ids[|ids| - 1];
      Registrations(posts, ids[..|ids| - 1], now) + if DueLater(posts[id], now) then [(id, posts[id].runAtTs)] else []
  }

  /** A registration is made for exactly the listed ids whose post is pending with its time ahead, at that time. */
  lemma {:induction false} RegistrationsMembers(posts: map<int, ScheduledPost>, ids: seq<int>, now: int, j: (int, int))
    requires forall i :: 0 <= i < |ids| ==> ids[i] in posts
    ensures j in Registrations(posts, ids, now) <==>
              exists i :: 0 <= i < |ids| && j == (ids[i], posts[ids[i]].runAtTs) && DueLater(posts[ids[i]], now)
  {
    if |ids| > 0 {
      var init := ids[..|ids| - 1];
      RegistrationsMembers(posts, init, now, j);
      assert forall i :: 0 <= i < |init| ==> init[i] == ids[i];
    }
  }

  /** Listing each id once registers each post at most once. */
  lemma {:induction false} RegistrationsDistinct(posts: map<int, ScheduledPost>, ids: seq<int>, now: int)
    requires forall i :: 0 <= i < |ids| ==> ids[i] in posts
    requires NoDup(ids)
    ensures DistinctKeys(Registrations(posts, ids, now))
  {
    if |ids| > 0 {
      var init, id := ids[..|ids| - 1], ids[|ids| - 1];
      RegistrationsDistinct(posts, init, now);
      var rest := Registrations(posts, init, now);
      forall j | 0 <= j < |rest|
        ensures rest[j].0 != id
      {
        RegistrationsMembers(posts, init, now, rest[j]);
        var i :| 0 <= i < |init| && rest[j] == (init[i], posts[init[i]].runAtTs) && DueLater(posts[init[i]], now);
        assert init[i] == ids[i];
      }
    }
  }

  /** _reload_scheduled_posts registers each stored post at most once. */
  lemma RegistrationsOncePerPost(posts: map<int, ScheduledPost>, now: int)
    ensures DistinctKeys(Registrations(posts, SortedSet(posts.Keys), now))
  {
    var ids := SortedSet(posts.Keys);
    assert NoDup(ids);
    RegistrationsDistinct(posts, ids, now);
  }

  lemma RegistrationsStep(posts: map<int, ScheduledPost>, ids: seq<int>, k: int, now: int)
    requires forall i :: 0 <= i < |ids| ==> ids[i] in posts
    requires 0 <= k < |ids|
    ensures Registrations(posts, ids[..k + 1], now) ==
            Registrations(posts, ids[..k], now) + if DueLater(posts[ids[k]], now) then [(ids[k], posts[ids[k]].runAtTs)] else []
  {
    assert ids[..k + 1][..k] == ids[..k];
  }

  /** A registration is made for exactly each stored pending post whose time is still ahead. */
  lemma RegistrationsExactlyDue(posts: map<int, ScheduledPost>, now: int, id: int, t: int)
    ensures (id, t) in Registrations(posts, SortedSet(posts.Keys), now) <==>
              id in posts && DueLater(posts[id], now) && t == posts[id].runAtTs
  {
    var ids := SortedSet(posts.Keys);
    RegistrationsMembers(posts, ids, now, (id, t));
    if id in posts {
      assert id in ids;
      var i :| 0 <= i < |ids| && ids[i] == id;
      assert (id, posts[id].runAtTs) == (ids[i], posts[ids[i]].runAtTs);
    }
  }

  /** A pending post whose time has passed is not registered again, so it stays pending. */
  lemma PastDueStaysPending(posts: map<int, ScheduledPost>, now: int, id: int)
    requires id in posts && posts[id].status == Pending && posts[id].runAtTs <= now
    ensures forall j :: j in Registrations(posts, SortedSet(posts.Keys), now) ==> j.0 != id
  {
    forall j | j in Registrations(posts, SortedSet(posts.Keys), now)
      ensures j.0 != id
    {
      RegistrationsExactlyDue(posts, now, j.0, j.1);
    }
  }

  /**
   * One user's conversation with the bot (context.user_data: the photos and
   * the day), the job queue as the list of (post id, time) registrations it
   * received, and the configuration the handlers read.
   */
  class Dispatcher {
    const store: Store
    const channelId: int
    const jitter: int
    const utcOffset: int
    var photos: seq<string>
    var scheduleDate: Option<int>
    var jobs: seq<(int, int)>

    ghost predicate Valid()
      reads this, store
    {
      store.Valid() && |photos| <= BatchSize
    }

    constructor (store: Store, channelId: int, jitter: int, utcOffset: int)
      requires store.Valid()
      ensures Valid()
      ensures this.store == store && this.channelId == channelId && this.jitter == jitter
      ensures this.utcOffset == utcOffset
      ensures photos == [] && scheduleDate == None && jobs == []
    {
      this.store := store;
      this.channelId := channelId;
      this.jitter := jitter;
      this.utcOffset := utcOffset;
      photos := [];
      scheduleDate := None;
      jobs := [];
    }

    /** /schedule_day: with a channel configured and a valid date, start a new batch for that day. */
    method ScheduleDay(arg: DateArgument) returns (r: ScheduleDayReply)
      requires Valid()
      modifies this
      ensures Valid()
      ensures jobs == old(jobs)
      ensures r == SetChannelFirst <==> channelId == 0
      ensures r == AwaitingPhotos <==> channelId != 0 && arg.Date?
      ensures r == DayUsage <==> channelId != 0 && arg.NoArgument?
      ensures r == AwaitingPhotos ==> scheduleDate == Some(arg.day) && photos == []
      ensures r != AwaitingPhotos ==> scheduleDate == old(scheduleDate) && photos == old(photos)
    {
      if channelId == 0 {
        return SetChannelFirst;
      }
      match arg {
        case NoArgument => r := DayUsage;
        case Malformed => r := BadDate;
        case Date(day) =>
          scheduleDate := Some(day);
          photos := [];
          r := AwaitingPhotos;
      }
    }

    /** /cancel: the batch in progress is dropped. */
    method Cancel()
      requires Valid()
      modifies this
      ensures Valid()
      ensures photos == [] && scheduleDate == None && jobs == old(jobs)
    {
      photos := [];
      scheduleDate := None;
    }

    /**
     * schedule_collect_photo: a photo is added to the batch; the eighth one
     * stores eight pending posts at 12:30 + 90 k minutes on the chosen day,
     * each moved by a minute offset drawn within +-jitter, registers a job
     * for each and clears the batch. The failures on the eighth photo keep
     * the eight photos and the day.
     */
    method CollectPhoto(fileId: Option<string>, jobQueueAvailable: bool) returns (r: CollectReply)
      requires Valid()
      modifies this, store
      ensures Valid()
      ensures store.activity == old(store.activity) && store.messages == old(store.messages)
      ensures fileId.None? <==> r == NotAPhoto
      ensures fileId.Some? ==> (|old(photos)| >= BatchSize <==> r == BatchFull)
      ensures fileId.Some? && |old(photos)| < BatchSize - 1 ==> r == Saved(|old(photos)| + 1)
      ensures fileId.Some? && |old(photos)| == BatchSize - 1 ==>
                (r == MissingDate <==> old(scheduleDate).None?) &&
                (r == BadJitter <==> old(scheduleDate).Some? && jitter < 0) &&
                (r == NoJobQueue <==> old(scheduleDate).Some? && jitter >= 0 && !jobQueueAvailable) &&
                (r.Scheduled? <==> old(scheduleDate).Some? && jitter >= 0 && jobQueueAvailable)
      ensures r == NotAPhoto || r == BatchFull ==> photos == old(photos)
      ensures r.Saved? || r == MissingDate || r == BadJitter || r == NoJobQueue ==>
                photos == old(photos) + [fileId.value]
      ensures !r.Scheduled? ==>
                scheduleDate == old(scheduleDate) && jobs == old(jobs) &&
                store.posts == old(store.posts) && store.lastPostId == old(store.lastPostId)
      ensures r.Scheduled? ==>
                && BatchStored(old(store.posts), store.posts, old(store.lastPostId), store.lastPostId,
                               old(photos) + [fileId.value], r.ids, r.times, old(scheduleDate).value, this)
                && jobs == old(jobs) + Zip(r.ids, r.times)
                && photos == [] && scheduleDate == None
    {
      if fileId.None? {
        return NotAPhoto;
      }
      if |photos| >= BatchSize {
        return BatchFull;
      }
      photos := photos + [fileId.value];
      if |photos| < BatchSize {
        return Saved(|photos|);
      }
      if scheduleDate.None? {
        return MissingDate;
      }
      var day := scheduleDate.value;
      if jitter < 0 {
        return BadJitter;
      }
      if !jobQueueAvailable {
        return NoJobQueue;
      }
      var ids, times := StoreBatch(day);
      r := Scheduled(ids, times);
      photos := [];
      scheduleDate := None;
    }

    /**
     * The loop of schedule_collect_photo over the eight photos: each is
     * stored as a pending post at its time moved by a minute offset drawn
     * within +-jitter, and a job is registered for it.
     */
    method StoreBatch(day: int) returns (ids: seq<int>, times: seq<int>)
      requires store.Valid() && |photos| == BatchSize && jitter >= 0
      modifies this`jobs, store
      ensures store.Valid()
      ensures store.activity == old(store.activity) && store.messages == old(store.messages)
      ensures BatchStored(old(store.posts), store.posts, old(store.lastPostId), store.lastPostId, photos, ids, times, day, this)
      ensures jobs == old(jobs) + Zip(ids, times)
    {
      ghost var base, start := store.lastPostId, store.posts;
      ids := [];
      times := [];
      var i := 0;
      while i < BatchSize
        invariant 0 <= i <= BatchSize && |ids| == i && |times| == i
        invariant store.Valid()
        invariant store.activity == old(store.activity) && store.messages == old(store.messages)
        invariant store.lastPostId == base + i
        invariant forall k :: 0 <= k < i ==> ids[k] == base + k + 1
        invariant forall k :: 0 <= k < i ==>
                    NominalRunAt(day, k, utcOffset) - 60 * jitter <= times[k] <= NominalRunAt(day, k, utcOffset) + 60 * jitter
        invariant PostsAdded(start, store.posts, base, photos, times, i, channelId)
        invariant jobs == old(jobs)
      {
        var offset :| -jitter <= offset <= jitter;
        var runAt := NominalRunAt(day, i, utcOffset) + 60 * offset;
        ghost var before := store.posts;
        var id := store.AddScheduledPost(photos[i], runAt, channelId);
        PostsAddedStep(start, before, store.posts, base, photos, times, runAt, i, channelId);
        ids := ids + [id];
        times := times + [runAt];
        i := i + 1;
      }
      jobs := jobs + Zip(ids, times);
    }

    /**
     * post_photo_job: the job's post is acted on only while it is pending;
     * it becomes sent (with the time) when the photo goes out and failed
     * otherwise. sendSucceeds is the outcome of the Telegram call; now is the
     * clock.
     */
    method PostPhotoJob(data: Option<int>, sendSucceeds: bool, now: int)
      requires store.Valid()
      modifies store
      ensures store.Valid()
      ensures store.activity == old(store.activity) && store.messages == old(store.messages)
      ensures store.lastPostId == old(store.lastPostId)
      ensures !Acts(old(store.posts), data) ==> store.posts == old(store.posts)
      ensures Acts(old(store.posts), data) ==>
                var id := data.value;
                store.posts == old(store.posts)[id := Fired(old(store.posts)[id], sendSucceeds, now)]
      ensures !Acts(store.posts, data)
    {
      if data.None? || data.value == 0 {
        return;
      }
      var id := data.value;
      if id !in store.posts || store.posts[id].status != Pending {
        return;
      }
      store.posts := store.posts[id := Fired(store.posts[id], sendSucceeds, now)];
    }

    /** _reload_scheduled_posts: a job for every pending post whose time is after now, nothing without a job queue. */
    method ReloadScheduledPosts(now: int, jobQueueAvailable: bool)
      requires Valid()
      modifies this
      ensures Valid()
      ensures photos == old(photos) && scheduleDate == old(scheduleDate)
      ensures !jobQueueAvailable ==> jobs == old(jobs)
      ensures jobQueueAvailable ==> jobs == old(jobs) + Registrations(store.posts, SortedSet(store.posts.Keys), now)
    {
      if !jobQueueAvailable {
        return;
      }
      var added := DueRegistrations(store.posts, now);
      jobs := jobs + added;
    }
  }

  /** The loop of _reload_scheduled_posts over the rows in id order: a registration for each pending row still ahead. */
  method DueRegistrations(posts: map<int, ScheduledPost>, now: int) returns (added: seq<(int, int)>)
    ensures added == Registrations(posts, SortedSet(posts.Keys), now)
  {
    var ids := SortedSet(posts.Keys);
    added := [];
    for k := 0 to |ids|
      invariant added == Registrations(posts, ids[..k], now)
    {
      var id := ids[k];
      RegistrationsStep(posts, ids, k, now);
      if DueLater(posts[id], now) {
        added := added + [(id, posts[id].runAtTs)];
      }
    }
    assert ids[..|ids|] == ids;
  }

  /** Whether post_photo_job acts: a non-zero id whose row exists and is pending. */
  predicate Acts(posts: map<int, ScheduledPost>, data: Option<int>) {
    data.Some? && data.value != 0 && data.value in posts && posts[data.value].status == Pending
  }

  /** The row after its job ran: sent with the time, or failed. */
  function Fired(p: ScheduledPost, sendSucceeds: bool, now: int): (q: ScheduledPost)
    ensures q.channelId == p.channelId && q.runAtTs == p.runAtTs && q.fileId == p.fileId && q.caption == p.caption
    ensures q.status != Pending
    ensures sendSucceeds <==> q.status == Sent
    ensures q.sentTs == if sendSucceeds then Some(now) else p.sentTs
  {
    if sendSucceeds then p.(status := Sent, sentTs := Some(now)) else p.(status := Failed)
  }

  /** Pairs of ids and times, side by side. */
  function Zip(ids: seq<int>, times: seq<int>): (r: seq<(int, int)>)
    requires |ids| == |times|
    ensures |r| == |ids|
    ensures forall k :: 0 <= k < |r| ==> r[k] == (ids[k], times[k])
  {
    if |ids| == 0 then [] else [(ids[0], times[0])] + Zip(ids[1..], times[1..])
  }

  /**
   * A full batch of files is stored: ids base+1 .. base+8, each time within
   * the dispatcher's jitter of its nominal slot on the day, the id counter
   * advanced past them and the rows added as PostsAdded says.
   */
  ghost predicate BatchStored(before: map<int, ScheduledPost>, after: map<int, ScheduledPost>, base: int, lastPostId: int,
                              files: seq<string>, ids: seq<int>, times: seq<int>, day: int, d: Dispatcher)
  {
    && |ids| == BatchSize && |times| == BatchSize
    && (forall k :: 0 <= k < BatchSize ==> ids[k] == base + k + 1)
    && (forall k :: 0 <= k < BatchSize ==>
          NominalRunAt(day, k, d.utcOffset) - 60 * d.jitter <= times[k] <= NominalRunAt(day, k, d.utcOffset) + 60 * d.jitter)
    && lastPostId == base + BatchSize
    && PostsAdded(before, after, base, files, times, BatchSize, d.channelId)
  }

  /** The first i photos are stored under the ids after base, with their times, and the older rows are untouched. */
  ghost predicate PostsAdded(before: map<int, ScheduledPost>, after: map<int, ScheduledPost>, base: int,
                             files: seq<string>, times: seq<int>, i: int, channelId: int)
  {
    && 0 <= i <= |files| && i <= |times|
    && (forall id :: id in after <==> id in before || base < id <= base + i)
    && (forall id :: id in before ==> id <= base && after[id] == before[id])
    && (forall k :: 0 <= k < i ==>
          after[base + k + 1] == ScheduledPost(channelId, times[k], files[k], None, Pending, None))
  }

  lemma PostsAddedStep(start: map<int, ScheduledPost>, before: map<int, ScheduledPost>, after: map<int, ScheduledPost>,
                       base: int, files: seq<string>, times: seq<int>, t: int, i: int, channelId: int)
    requires i < |files| && |times| == i
    requires PostsAdded(start, before, base, files, times, i, channelId)
    requires base + i + 1 !in before
    requires after == before[base + i + 1 := ScheduledPost(channelId, t, files[i], None, Pending, None)]
    ensures PostsAdded(start, after, base, files, times + [t], i + 1, channelId)
  {
    var times' := times + [t];
    forall k | 0 <= k < i
      ensures after[base + k + 1] == ScheduledPost(channelId, times'[k], files[k], None, Pending, None)
    {
      assert times'[k] == times[k];
    }
  }
}
