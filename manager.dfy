/** The `ChapterManager` object (content.js:2-453): the canonical timeline `chapters`,
    the working order `customOrder` the user rearranges, the playback index
    `currentChapter`, and the three properties of the video element it reads and writes. */
module Manager {
  import opened Wrappers
  import opened Chapters
  import opened Strategies

  // ---- rearranging the working order ----

  /** `s.splice(i, 1)`: the sequence without its element at `i`. */
  function RemoveAt(s: seq<Chapter>, i: nat): (r: seq<Chapter>)
    requires i < |s|
    ensures |r| == |s| - 1
    ensures forall j :: 0 <= j < i ==> r[j] == s[j]
    ensures forall j :: i <= j < |r| ==> r[j] == s[j + 1]
  {
    s[..i] + s[i + 1..]
  }

  /** `s.splice(i, 0, x)`: `x` inserted so that it lands at index `i`. */
  function InsertAt(s: seq<Chapter>, i: nat, x: Chapter): (r: seq<Chapter>)
    requires i <= |s|
    ensures |r| == |s| + 1 && r[i] == x
    ensures forall j :: 0 <= j < i ==> r[j] == s[j]
    ensures forall j :: i < j < |r| ==> r[j] == s[j - 1]
  {
    s[..i] + [x] + s[i..]
  }

  /** What `moveChapter(from, to)` leaves in the working order: the entry at `from` taken
      out and put back so that it sits at `to`. */
  function Moved(s: seq<Chapter>, from: nat, to: nat): (r: seq<Chapter>)
    requires from < |s| && to < |s|
    ensures |r| == |s| && r[to] == s[from]
  {
    InsertAt(RemoveAt(s, from), to, s[from])
  }

  /** A move keeps the length, puts the moved entry at its target index and leaves every
      other entry in the order it had. */
  lemma MovedSpec(s: seq<Chapter>, from: nat, to: nat)
    requires from < |s| && to < |s|
    ensures |Moved(s, from, to)| == |s|
    ensures Moved(s, from, to)[to] == s[from]
    ensures RemoveAt(Moved(s, from, to), to) == RemoveAt(s, from)
  {
    var rest := RemoveAt(s, from);
    var m := Moved(s, from, to);
    assert m[..to] + m[to + 1..] == rest;
  }

  /** A move only rearranges: the working order holds the same chapters as before. */
  lemma MovedPermutes(s: seq<Chapter>, from: nat, to: nat)
    requires from < |s| && to < |s|
    ensures multiset(Moved(s, from, to)) == multiset(s)
  {
    var rest := RemoveAt(s, from);
    calc {
      multiset(s);
      { assert s == s[..from] + [s[from]] + s[from + 1..]; }
      multiset(s[..from]) + multiset([s[from]]) + multiset(s[from + 1..]);
      multiset(rest) + multiset([s[from]]);
      { assert rest == rest[..to] + rest[to..]; }
      multiset(rest[..to]) + multiset([s[from]]) + multiset(rest[to..]);
      multiset(rest[..to] + [s[from]] + rest[to..]);
    }
  }

  /** Moving an entry onto its own index changes nothing. */
  lemma MovedInPlace(s: seq<Chapter>, i: nat)
    requires i < |s|
    ensures Moved(s, i, i) == s
  {
    assert Moved(s, i, i) == s[..i] + [s[i]] + s[i + 1..];
  }

  /** Moving the entry back to where it came from undoes a move. */
  lemma MovedBack(s: seq<Chapter>, from: nat, to: nat)
    requires from < |s| && to < |s|
    ensures Moved(Moved(s, from, to), to, from) == s
  {
    MovedSpec(s, from, to);
    assert InsertAt(RemoveAt(s, from), from, s[from]) == s;
  }

  /** The up and down buttons exchange an entry with its neighbour. */
  lemma MovedAdjacent(s: seq<Chapter>, i: nat)
    requires i + 1 < |s|
    ensures Moved(s, i + 1, i) == s[i := s[i + 1]][i + 1 := s[i]]
    ensures Moved(s, i, i + 1) == s[i := s[i + 1]][i + 1 := s[i]]
  {
    assert Moved(s, i + 1, i) == s[..i] + [s[i + 1]] + [s[i]] + s[i + 2..];
    assert Moved(s, i, i + 1) == s[..i] + [s[i + 1]] + [s[i]] + s[i + 2..];
  }

  // ---- how long a working-order entry plays ----

  /** `chapters.find(ch => ch.time > t)`: the first chapter, in list order, starting after `t`. */
  function FirstLater(chapters: seq<Chapter>, t: nat): (r: Option<Chapter>)
    ensures r.Some? ==> r.value in chapters && r.value.time > t
    ensures r.None? <==> forall c :: c in chapters ==> c.time <= t
  {
    if chapters == [] then None
    else if chapters[0].time > t then Some(chapters[0])
    else
      assert forall c :: c in chapters ==> c == chapters[0] || c in chapters[1..];
      FirstLater(chapters[1..], t)
  }

  /** On a sorted timeline the first later chapter is also the earliest later one. */
  lemma {:induction false} FirstLaterIsEarliest(chapters: seq<Chapter>, t: nat)
    requires Sorted(chapters)
    ensures FirstLater(chapters, t).Some? ==>
      forall c :: c in chapters && c.time > t ==> FirstLater(chapters, t).value.time <= c.time
  {
    if chapters != [] && chapters[0].time <= t {
      FirstLaterIsEarliest(chapters[1..], t);
      assert forall c :: c in chapters ==> c == chapters[0] || c in chapters[1..];
    } else if chapters != [] {
      forall c | c in chapters ensures chapters[0].time <= c.time {
        var j :| 0 <= j < |chapters| && chapters[j] == c;
        if j > 0 {
          assert chapters[0].time <= chapters[j].time;
        }
      }
    }
  }

  /** The first chapter after `t` is the one at the first index whose time exceeds `t`. */
  lemma {:induction false} FirstLaterAt(chapters: seq<Chapter>, t: nat, j: nat)
    requires j < |chapters| && chapters[j].time > t
    requires forall i :: 0 <= i < j ==> chapters[i].time <= t
    ensures FirstLater(chapters, t) == Some(chapters[j])
  {
    if j > 0 {
      FirstLaterAt(chapters[1..], t, j - 1);
    }
  }

  /** `getChapterDuration(i)`: with a next working-order entry, the gap from the entry's
      start to the first canonical chapter after it, or 60 when there is none; for the
      last entry, the rest of the video. */
  function ChapterDuration(chapters: seq<Chapter>, order: seq<Chapter>, i: nat, videoDuration: nat): (d: int)
    requires i < |order|
    ensures i + 1 < |order| ==> d > 0
    ensures i + 1 == |order| ==> order[i].time + d == videoDuration
  {
    if i + 1 < |order| then
      match FirstLater(chapters, order[i].time)
      case Some(next) => next.time - order[i].time
      case None => 60
    else videoDuration - order[i].time
  }

  /** Durations follow the canonical timeline, not the working order: an entry that is
      chapter `k` of the timeline plays until chapter `k + 1` starts (more than 5 s later),
      for 60 s when it is the timeline's last chapter, and to the end of the video when it
      is the last entry of the working order. */
  lemma DurationFollowsTimeline(chapters: seq<Chapter>, order: seq<Chapter>, i: nat, k: nat, videoDuration: nat)
    requires Canonical(chapters) && i < |order| && k < |chapters| && order[i].time == chapters[k].time
    ensures i + 1 < |order| && k + 1 < |chapters| ==>
      ChapterDuration(chapters, order, i, videoDuration) == chapters[k + 1].time - chapters[k].time > 5
    ensures i + 1 < |order| && k + 1 == |chapters| ==> ChapterDuration(chapters, order, i, videoDuration) == 60
    ensures i + 1 == |order| ==> ChapterDuration(chapters, order, i, videoDuration) == videoDuration - order[i].time
  {
    forall j | 0 <= j < k ensures chapters[j].time <= chapters[k].time {
      SpacedIncreasing(chapters, j, k);
    }
    if k + 1 < |chapters| {
      FirstLaterAt(chapters, chapters[k].time, k + 1);
    } else {
      forall c | c in chapters ensures c.time <= chapters[k].time {
        var j :| 0 <= j < |chapters| && chapters[j] == c;
      }
    }
  }

  /** The auto-advance test of `handleVideoProgress`: a next entry exists and the playhead
      has reached the end of the current entry's duration. */
  predicate ShouldAdvance(chapters: seq<Chapter>, order: seq<Chapter>, i: nat, now: nat, videoDuration: nat)
    requires i < |order|
    ensures ShouldAdvance(chapters, order, i, now, videoDuration) ==> i + 1 < |order| && now > order[i].time
  {
    i + 1 < |order| && now >= order[i].time + ChapterDuration(chapters, order, i, videoDuration)
  }

  /** Playing the timeline in its own order advances exactly when the playhead reaches the
      start of the next chapter. */
  lemma AdvanceAtNextChapter(chapters: seq<Chapter>, i: nat, now: nat, videoDuration: nat)
    requires Canonical(chapters) && i < |chapters|
    ensures ShouldAdvance(chapters, chapters, i, now, videoDuration)
            <==> i + 1 < |chapters| && now >= chapters[i + 1].time
  {
    DurationFollowsTimeline(chapters, chapters, i, i, videoDuration);
  }

  /** The playback index after one `timeupdate` with the playhead at `now`: one step on
      when the advance test passes, unchanged otherwise (also on an empty order). */
  function NextIndex(chapters: seq<Chapter>, order: seq<Chapter>, i: nat, now: nat, videoDuration: nat): (j: nat)
    requires order == [] || i < |order|
    ensures j == i || j == i + 1
    ensures order != [] ==> j < |order|
    ensures j == i + 1 <==> order != [] && ShouldAdvance(chapters, order, i, now, videoDuration)
  {
    if order != [] && ShouldAdvance(chapters, order, i, now, videoDuration) then i + 1 else i
  }

  /** The playback index after a run of `timeupdate` events at the given playhead values. */
  function IndexAfter(chapters: seq<Chapter>, order: seq<Chapter>, i: nat, playheads: seq<nat>, videoDuration: nat): nat
    requires order == [] || i < |order|
    decreases |playheads|
  {
    if playheads == [] then i
    else IndexAfter(chapters, order, NextIndex(chapters, order, i, playheads[0], videoDuration), playheads[1..], videoDuration)
  }

  /** However the playhead moves, the index only moves forward, one entry per event at
      most, and never leaves the working order: at its last entry it stays put. */
  lemma {:induction false} IndexAfterBounds(chapters: seq<Chapter>, order: seq<Chapter>, i: nat, playheads: seq<nat>, videoDuration: nat)
    requires order != [] && i < |order|
    ensures i <= IndexAfter(chapters, order, i, playheads, videoDuration) < |order|
    ensures IndexAfter(chapters, order, i, playheads, videoDuration) <= i + |playheads|
    decreases |playheads|
  {
    if playheads != [] {
      var j := NextIndex(chapters, order, i, playheads[0], videoDuration);
      IndexAfterBounds(chapters, order, j, playheads[1..], videoDuration);
    }
  }

  /** The last entry of the working order never advances, whatever the playhead. */
  lemma LastEntryStays(chapters: seq<Chapter>, order: seq<Chapter>, now: nat, videoDuration: nat)
    requires order != []
    ensures !ShouldAdvance(chapters, order, |order| - 1, now, videoDuration)
  {
  }

  /** Timeline 0, 60, 180 played as 180, 0, 60 in a 300 s video: the entry at 180 is the
      timeline's last chapter but not the order's last entry, so it gets the 60 s default,
      not the 120 s left in the video. */
  lemma DefaultDurationExample()
    ensures var chapters := At([0, 60, 180]);
      var order := [chapters[2], chapters[0], chapters[1]];
      ChapterDuration(chapters, order, 0, 300) == 60
      && ChapterDuration(chapters, order, 1, 300) == 60
      && ChapterDuration(chapters, order, 2, 300) == 240
  {
    var chapters := At([0, 60, 180]);
    assert chapters[0].time == 0 && chapters[1].time == 60 && chapters[2].time == 180;
    assert FirstLater(chapters, 180) == None;
    FirstLaterAt(chapters, 0, 1);
  }

  /** Timeline 0, 30, 90 played as 90, 0, 30 in a 150 s video: the first entry advances
      once the playhead reaches 150, the second at 30, and the last never. */
  lemma PlaybackExample(now: nat)
    ensures var chapters := At([0, 30, 90]);
      var order := [chapters[2], chapters[0], chapters[1]];
      (ShouldAdvance(chapters, order, 0, now, 150) <==> now >= 150)
      && (ShouldAdvance(chapters, order, 1, now, 150) <==> now >= 30)
      && !ShouldAdvance(chapters, order, 2, now, 150)
  {
    var chapters := At([0, 30, 90]);
    assert chapters[0].time == 0 && chapters[1].time == 30 && chapters[2].time == 90;
    assert FirstLater(chapters, 90) == None;
    FirstLaterAt(chapters, 0, 1);
  }

  /** The same playback driven by events: at 149 s nothing happens, at 150 s the order
      moves to its second entry, at 30 s to its third, and there it stays. */
  lemma PlaybackRunExample()
    ensures var chapters := At([0, 30, 90]);
      var order := [chapters[2], chapters[0], chapters[1]];
      IndexAfter(chapters, order, 0, [149], 150) == 0
      && IndexAfter(chapters, order, 0, [149, 150], 150) == 1
      && IndexAfter(chapters, order, 0, [149, 150, 30], 150) == 2
      && IndexAfter(chapters, order, 0, [149, 150, 30, 150, 500], 150) == 2
  {
    var chapters := At([0, 30, 90]);
    var order := [chapters[2], chapters[0], chapters[1]];
    PlaybackExample(149);
    PlaybackExample(150);
    PlaybackExample(30);
    PlaybackExample(500);
    assert NextIndex(chapters, order, 0, 149, 150) == 0;
    assert NextIndex(chapters, order, 0, 150, 150) == 1;
    assert NextIndex(chapters, order, 1, 30, 150) == 2;
    assert NextIndex(chapters, order, 2, 150, 150) == 2;
    assert NextIndex(chapters, order, 2, 500, 150) == 2;
    assert [149, 150][1..] == [150];
    assert [149, 150, 30][1..] == [150, 30] && [150, 30][1..] == [30];
    assert [149, 150, 30, 150, 500][1..] == [150, 30, 150, 500];
    assert [150, 30, 150, 500][1..] == [30, 150, 500];
    assert [30, 150, 500][1..] == [150, 500] && [150, 500][1..] == [500];
  }

  // ---- the manager object ----

  class ChapterManager {
    /** The canonical timeline found by extraction. */
    var chapters: seq<Chapter>
    /** The working order the user rearranges and playback follows. */
    var customOrder: seq<Chapter>
    /** The index into `customOrder` of the entry being played. */
    var currentChapter: nat
    /** The video element's `currentTime`, `duration` and `paused`, in whole seconds. */
    var currentTime: nat
    var duration: nat
    var paused: bool

    /** The timeline is canonical, the working order a rearrangement of it, and the
        playback index 0 or within the working order. */
    predicate Valid()
      reads this
    {
      Canonical(chapters) && multiset(customOrder) == multiset(chapters)
      && (currentChapter == 0 || currentChapter < |customOrder|)
    }

    /** A manager for a page whose video is ready: empty lists, index 0, then extraction. */
    constructor(page: Page, videoTime: nat, videoDuration: nat, videoPaused: bool)
      ensures Valid()
      ensures chapters == ExtractedChapters(page, videoDuration) && customOrder == chapters
      ensures currentChapter == 0
      ensures currentTime == videoTime && duration == videoDuration && paused == videoPaused
    {
      chapters, customOrder, currentChapter := [], [], 0;
      currentTime, duration, paused := videoTime, videoDuration, videoPaused;
      new;
      ExtractChapters(page);
    }

    /** `extractChapters`: run the strategies in turn while nothing is found, sort, drop
        near-duplicates, fall back to placeholders, and store the result as both the
        timeline and the working order. */
    method ExtractChapters(page: Page)
      requires currentChapter == 0
      modifies this
      ensures Valid()
      ensures chapters == ExtractedChapters(page, duration) && customOrder == chapters
      ensures currentChapter == 0 && currentTime == old(currentTime)
      ensures duration == old(duration) && paused == old(paused)
    {
      var raw := ReadStrategies(page);
      var unique := Dedupe(SortByTime(raw));
      if |unique| == 0 && duration > 300 {
        unique := BuildFallback(duration);
      }
      chapters := unique;
      customOrder := unique;
      ExtractedCanonical(page, duration);
    }

    /** The reset button: the working order becomes the timeline again. */
    method ResetOrder()
      requires Valid()
      modifies this
      ensures Valid()
      ensures customOrder == chapters && chapters == old(chapters)
      ensures currentChapter == old(currentChapter) && currentTime == old(currentTime)
      ensures duration == old(duration) && paused == old(paused)
    {
      assert |multiset(customOrder)| == |multiset(chapters)|;
      customOrder := chapters;
    }

    /** `moveChapter(from, to)`: two splices on the working order. */
    method MoveChapter(from: nat, to: nat)
      requires Valid() && from < |customOrder| && to < |customOrder|
      modifies this
      ensures Valid()
      ensures customOrder == Moved(old(customOrder), from, to) && chapters == old(chapters)
      ensures currentChapter == old(currentChapter) && currentTime == old(currentTime)
      ensures duration == old(duration) && paused == old(paused)
    {
      MovedPermutes(customOrder, from, to);
      ghost var before := customOrder;
      var item := customOrder[from];
      customOrder := customOrder[..from] + customOrder[from + 1..];
      customOrder := customOrder[..to] + [item] + customOrder[to..];
      assert customOrder == Moved(before, from, to);
      assert |customOrder| == |before|;
    }

    /** The up button of entry `index`: moves it up only when it is not first. */
    method MoveUp(index: nat)
      requires Valid() && index < |customOrder|
      modifies this
      ensures Valid()
      ensures customOrder == if index > 0 then Moved(old(customOrder), index, index - 1) else old(customOrder)
      ensures chapters == old(chapters) && currentChapter == old(currentChapter)
      ensures currentTime == old(currentTime) && duration == old(duration) && paused == old(paused)
    {
      if index > 0 {
        MoveChapter(index, index - 1);
      }
    }

    /** The down button of entry `index`: moves it down only when it is not last. */
    method MoveDown(index: nat)
      requires Valid() && index < |customOrder|
      modifies this
      ensures Valid()
      ensures customOrder == if index < |old(customOrder)| - 1 then Moved(old(customOrder), index, index + 1) else old(customOrder)
      ensures chapters == old(chapters) && currentChapter == old(currentChapter)
      ensures currentTime == old(currentTime) && duration == old(duration) && paused == old(paused)
    {
      if index < |customOrder| - 1 {
        MoveChapter(index, index + 1);
      }
    }

    /** `playChapter(index)`: seek to the entry's start and play; past the end, nothing. */
    method PlayChapter(index: nat)
      requires Valid()
      modifies this
      ensures Valid()
      ensures index < |customOrder| ==> currentTime == customOrder[index].time && !paused
      ensures index >= |customOrder| ==> currentTime == old(currentTime) && paused == old(paused)
      ensures chapters == old(chapters) && customOrder == old(customOrder)
      ensures currentChapter == old(currentChapter) && duration == old(duration)
    {
      if index >= |customOrder| {
        return;
      }
      currentTime := customOrder[index].time;
      if paused {
        paused := false;
      }
    }

    /** `playCustomOrder`: start the working order from its first entry. */
    method PlayCustomOrder()
      requires Valid()
      modifies this
      ensures Valid()
      ensures chapters == old(chapters) && customOrder == old(customOrder) && duration == old(duration)
      ensures customOrder == [] ==>
                currentChapter == old(currentChapter) && currentTime == old(currentTime) && paused == old(paused)
      ensures customOrder != [] ==> currentChapter == 0 && currentTime == customOrder[0].time && !paused
    {
      if |customOrder| == 0 {
        return;
      }
      currentChapter := 0;
      PlayChapter(0);
    }

    /** A `timeupdate` with the playhead at `playhead`, handled by `handleVideoProgress`:
        advance to the next entry and seek to it when the current entry's duration has
        elapsed. */
    method HandleVideoProgress(playhead: nat)
      requires Valid()
      modifies this
      ensures Valid()
      ensures chapters == old(chapters) && customOrder == old(customOrder) && duration == old(duration)
      ensures currentChapter == NextIndex(chapters, customOrder, old(currentChapter), playhead, duration)
      ensures currentChapter == old(currentChapter) + 1
              ==> currentChapter < |customOrder| && currentTime == customOrder[currentChapter].time && !paused
      ensures currentChapter == old(currentChapter) ==> currentTime == playhead && paused == old(paused)
    {
      currentTime := playhead;
      if |customOrder| == 0 {
        return;
      }
      if currentChapter + 1 < |customOrder|
         && currentTime >= customOrder[currentChapter].time + ChapterDuration(chapters, customOrder, currentChapter, duration)
      {
        currentChapter := currentChapter + 1;
        PlayChapter(currentChapter);
      }
    }
  }
}
