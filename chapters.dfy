/** The chapter record and the post-processing every extraction ends with
    (content.js:185-206): a stable sort by time, a filter that drops a chapter lying
    within 5 seconds of its predecessor in the sorted list, and, when nothing is
    left, evenly spaced placeholder chapters for videos longer than five minutes. */
module Chapters {
  import opened Wrappers
  import opened Text
  import opened Timestamps

  /** `{ time, title, timeStr }`; `time` in whole seconds from the start of the video.
      Every strategy builds `timeStr` as `secondsToTime(time)`, so it is derived here
      rather than stored. */
  datatype Chapter = Chapter(time: nat, title: string)
  {
    /** The display time, which reads back as the chapter's start. */
    function timeStr(): (r: string)
      ensures TimeToSeconds(r) == Some(time)
    {
      RoundTrip(time);
      SecondsToTime(time)
    }
  }

  /** The default title `Chapter ${index + 1}`. */
  function NumberedTitle(index: nat): (t: string)
    ensures t != []
  {
    "Chapter " + Dec(index + 1)
  }

  /** What every extracted chapter satisfies: it has a title. */
  predicate WellFormed(c: Chapter) {
    c.title != ""
  }

  predicate AllWellFormed(s: seq<Chapter>) {
    forall c :: c in s ==> WellFormed(c)
  }

  predicate Sorted(s: seq<Chapter>) {
    forall i, j :: 0 <= i < j < |s| ==> s[i].time <= s[j].time
  }

  /** Consecutive chapters start more than 5 seconds apart. */
  predicate Spaced(s: seq<Chapter>) {
    forall k :: 0 <= k < |s| - 1 ==> s[k].time + 5 < s[k + 1].time
  }

  /** The canonical timeline: well-formed records, strictly increasing and spread out. */
  predicate Canonical(s: seq<Chapter>) {
    Spaced(s) && AllWellFormed(s)
  }

  lemma {:induction false} SpacedIncreasing(s: seq<Chapter>, i: nat, j: nat)
    requires Spaced(s) && i < j < |s|
    ensures s[i].time + 5 < s[j].time
    decreases j - i
  {
    if i + 1 < j {
      SpacedIncreasing(s, i + 1, j);
    }
  }

  // ---- chapters.sort((a, b) => a.time - b.time), a stable sort ----

  /** Places `c` in front of the first chapter that does not start earlier. */
  function Insert(c: Chapter, s: seq<Chapter>): (r: seq<Chapter>)
    ensures multiset(r) == multiset(s) + multiset{c}
  {
    if s == [] || c.time <= s[0].time then [c] + s
    else
      assert s == [s[0]] + s[1..];
      [s[0]] + Insert(c, s[1..])
  }

  /** Insertion sort from the back, which keeps chapters with equal times in input order. */
  function SortByTime(s: seq<Chapter>): (r: seq<Chapter>)
    ensures multiset(r) == multiset(s)
  {
    if s == [] then []
    else
      assert s == [s[0]] + s[1..];
      Insert(s[0], SortByTime(s[1..]))
  }

  /** The chapters of `s` that start at `t`, in order. */
  function WithTime(s: seq<Chapter>, t: nat): seq<Chapter> {
    if s == [] then []
    else (if s[0].time == t then [s[0]] else []) + WithTime(s[1..], t)
  }

  lemma {:induction false} InsertSorted(c: Chapter, s: seq<Chapter>)
    requires Sorted(s)
    ensures Sorted(Insert(c, s))
  {
    if s != [] && c.time > s[0].time {
      var t := s[1..];
      InsertSorted(c, t);
      var r := Insert(c, t);
      assert r[0] == c || (t != [] && r[0] == t[0] && r[0] == s[1]);
      assert s[0].time <= r[0].time;
      var full := [s[0]] + r;
      assert Insert(c, s) == full;
      forall i, j | 0 <= i < j < |full| ensures full[i].time <= full[j].time {
        assert full[j] == r[j - 1];
        if i == 0 {
          assert r[0].time <= r[j - 1].time;
        } else {
          assert full[i] == r[i - 1];
        }
      }
    }
  }

  lemma {:induction false} InsertStable(c: Chapter, s: seq<Chapter>, t: nat)
    ensures WithTime(Insert(c, s), t) == (if c.time == t then [c] else []) + WithTime(s, t)
  {
    if s == [] || c.time <= s[0].time {
      assert ([c] + s)[1..] == s;
    } else {
      InsertStable(c, s[1..], t);
      assert ([s[0]] + Insert(c, s[1..]))[1..] == Insert(c, s[1..]);
    }
  }

  /** The sort orders by time, loses and invents nothing, and keeps chapters that share a
      start time in their original relative order. */
  lemma {:induction false} SortByTimeSpec(s: seq<Chapter>)
    ensures Sorted(SortByTime(s))
    ensures multiset(SortByTime(s)) == multiset(s)
    ensures forall t :: WithTime(SortByTime(s), t) == WithTime(s, t)
  {
    if s != [] {
      SortByTimeSpec(s[1..]);
      InsertSorted(s[0], SortByTime(s[1..]));
      forall t ensures WithTime(SortByTime(s), t) == WithTime(s, t) {
        InsertStable(s[0], SortByTime(s[1..]), t);
      }
    }
  }

  // ---- chapters.filter((ch, i, arr) => i === 0 || Math.abs(ch.time - arr[i - 1].time) > 5) ----

  /** `Math.abs(a - b)`. */
  function Dist(a: int, b: int): nat {
    if a >= b then a - b else b - a
  }

  /** The filter's predicate: kept when first, or more than 5 s from the INPUT predecessor. */
  predicate Keep(s: seq<Chapter>, i: nat)
    requires i < |s|
  {
    i == 0 || Dist(s[i].time, s[i - 1].time) > 5
  }

  /** The indices below `n` that the filter keeps. */
  function KeptIndices(s: seq<Chapter>, n: nat): (ix: seq<nat>)
    requires n <= |s|
    ensures |ix| <= n
    ensures forall k :: 0 <= k < |ix| ==> ix[k] < n
  {
    if n == 0 then []
    else KeptIndices(s, n - 1) + (if Keep(s, n - 1) then [n - 1] else [])
  }

  /** The kept indices increase, and an index is among them exactly when `Keep` holds. */
  lemma {:induction false} KeptIndicesSpec(s: seq<Chapter>, n: nat)
    requires n <= |s|
    ensures var ix := KeptIndices(s, n);
      (forall k, l :: 0 <= k < l < |ix| ==> ix[k] < ix[l])
      && (forall i :: 0 <= i < n ==> (Keep(s, i) <==> i in ix))
  {
    if n > 0 {
      KeptIndicesSpec(s, n - 1);
    }
  }

  /** The filter: never longer than its input, and it keeps the first chapter. */
  function Dedupe(s: seq<Chapter>): (r: seq<Chapter>)
    ensures |r| <= |s|
    ensures s != [] ==> r != [] && r[0] == s[0]
  {
    var ix := KeptIndices(s, |s|);
    KeptIndicesSpec(s, |s|);
    assert s != [] ==> Keep(s, 0) && 0 in ix && ix[0] == 0;
    seq(|ix|, k requires 0 <= k < |ix| => s[ix[k]])
  }

  /** The filter keeps exactly the chapters `Keep` selects, in their input order: the
      result is a subsequence of the input picked out by increasing indices. */
  lemma DedupeIsFilter(s: seq<Chapter>)
    ensures var ix := KeptIndices(s, |s|);
      |Dedupe(s)| == |ix|
      && (forall k :: 0 <= k < |ix| ==> ix[k] < |s| && Dedupe(s)[k] == s[ix[k]])
      && (forall k, l :: 0 <= k < l < |ix| ==> ix[k] < ix[l])
      && (forall i :: 0 <= i < |s| ==> (Keep(s, i) <==> i in ix))
  {
    KeptIndicesSpec(s, |s|);
  }

  /** On sorted input consecutive kept chapters are more than 5 s apart. */
  lemma DedupeSpaced(s: seq<Chapter>)
    requires Sorted(s)
    ensures Spaced(Dedupe(s))
  {
    var ix := KeptIndices(s, |s|);
    KeptIndicesSpec(s, |s|);
    var r := Dedupe(s);
    forall k | 0 <= k < |r| - 1 ensures r[k].time + 5 < r[k + 1].time {
      var j := ix[k + 1];
      assert r[k] == s[ix[k]] && r[k + 1] == s[j];
      assert ix[k] < j && Keep(s, j);
      assert s[ix[k]].time <= s[j - 1].time;
    }
  }

  /** On sorted input the result is sorted; every kept chapter is an input chapter. */
  lemma DedupeSorted(s: seq<Chapter>)
    requires Sorted(s)
    ensures Sorted(Dedupe(s))
    ensures forall c :: c in Dedupe(s) ==> c in s
  {
    var ix := KeptIndices(s, |s|);
    KeptIndicesSpec(s, |s|);
    var r := Dedupe(s);
    forall i, j | 0 <= i < j < |r| ensures r[i].time <= r[j].time {
      assert r[i] == s[ix[i]] && r[j] == s[ix[j]];
      assert ix[i] < ix[j];
    }
  }

  function Times(s: seq<Chapter>): seq<nat> {
    seq(|s|, k requires 0 <= k < |s| => s[k].time)
  }

  function At(times: seq<nat>): seq<Chapter> {
    seq(|times|, k requires 0 <= k < |times| => Chapter(times[k], "t"))
  }

  /** 3 collapses into 0 and 12 into 10. */
  lemma DedupeExample()
    ensures Times(Dedupe(At([0, 3, 10, 12, 50]))) == [0, 10, 50]
  {
    var s := At([0, 3, 10, 12, 50]);
    assert s[0].time == 0 && s[1].time == 3 && s[2].time == 10 && s[3].time == 12 && s[4].time == 50;
    assert Keep(s, 0) && !Keep(s, 1) && Keep(s, 2) && !Keep(s, 3) && Keep(s, 4);
    assert KeptIndices(s, 5) == [0, 2, 4] by {
      assert KeptIndices(s, 1) == [0];
      assert KeptIndices(s, 2) == [0];
      assert KeptIndices(s, 3) == [0, 2];
      assert KeptIndices(s, 4) == [0, 2];
    }
    assert Dedupe(s) == [s[0], s[2], s[4]];
  }

  /** Comparison is with the input predecessor, not the last kept chapter: 8 goes because 4 was near it. */
  lemma DedupeComparesWithInputPredecessor()
    ensures Times(Dedupe(At([0, 4, 8]))) == [0]
  {
    var s := At([0, 4, 8]);
    assert s[0].time == 0 && s[1].time == 4 && s[2].time == 8;
    assert Keep(s, 0) && !Keep(s, 1) && !Keep(s, 2);
    assert KeptIndices(s, 3) == [0] by {
      assert KeptIndices(s, 1) == [0];
      assert KeptIndices(s, 2) == [0];
    }
    assert Dedupe(s) == [s[0]];
  }

  // ---- the fallback for videos over five minutes ----

  /** `Math.min(Math.floor(duration / 120), 10)`. */
  function FallbackCount(duration: nat): nat {
    if duration / 120 < 10 then duration / 120 else 10
  }

  /** Chapter `i` of `n` starts at `floor(i * duration / n)`. */
  function FallbackTime(i: nat, duration: nat, n: nat): nat
    requires 0 < n
  {
    i * duration / n
  }

  /** The placeholders: for a video over 300 s, 2 to 10 of them, the first at 0. */
  function FallbackChapters(duration: nat): (r: seq<Chapter>)
    ensures duration > 300 ==> 2 <= |r| <= 10 && r[0].time == 0
  {
    var n := FallbackCount(duration);
    assert duration > 300 ==> 2 <= n <= 10 by {
      if duration > 300 {
        FallbackCountRange(duration);
      }
    }
    seq(n, i requires 0 <= i < n => Placeholder(i, duration, n))
  }

  /** Placeholder `i` of `n`: `Chapter ${i + 1}` at its slot's start. */
  function Placeholder(i: nat, duration: nat, n: nat): Chapter
    requires 0 < n
  {
    Chapter(FallbackTime(i, duration, n), NumberedTitle(i))
  }

  /** The fallback loop: one placeholder per slot, pushed in order. */
  method BuildFallback(duration: nat) returns (cs: seq<Chapter>)
    requires duration > 300
    ensures cs == FallbackChapters(duration)
  {
    var n := FallbackCount(duration);
    FallbackCountRange(duration);
    cs := [];
    var i := 0;
    while i < n
      invariant i <= n
      invariant |cs| == i
      invariant forall j :: 0 <= j < i ==> cs[j] == Placeholder(j, duration, n)
    {
      cs := cs + [Placeholder(i, duration, n)];
      i := i + 1;
    }
  }

  lemma MulLe(a: nat, b: nat, n: nat)
    requires a <= b
    ensures a * n <= b * n
  {
    assert b * n == a * n + (b - a) * n;
  }

  /** `m * n <= x` bounds `x / n` from below. */
  lemma DivLower(x: nat, m: nat, n: nat)
    requires 0 < n && m * n <= x
    ensures m <= x / n
  {
    var q := x / n;
    assert x == q * n + x % n;
    if q < m {
      MulLe(q + 1, m, n);
    }
  }

  /** `x < m * n` bounds `x / n` from above. */
  lemma DivUpper(x: nat, m: nat, n: nat)
    requires 0 < n && x < m * n
    ensures x / n < m
  {
    var q := x / n;
    assert x == q * n + x % n;
    if q >= m {
      MulLe(m, q, n);
    }
  }

  /** Adding at least `120 * n` to the dividend adds at least 120 to the quotient. */
  lemma DivMonotoneGap(a: nat, d: nat, n: nat)
    requires 0 < n && 120 * n <= d
    ensures (a + d) / n >= a / n + 120
  {
    var q := a / n;
    assert q * n <= a by {
      assert a == q * n + a % n;
    }
    assert (q + 120) * n == q * n + 120 * n;
    DivLower(a + d, q + 120, n);
  }

  lemma DivBelow(i: nat, d: nat, n: nat)
    requires i < n && 0 < d
    ensures i * d / n < d
  {
    MulLe(i, n - 1, d);
    assert (n - 1) * d == n * d - d;
    assert d * n == n * d;
    DivUpper(i * d, d, n);
  }

  lemma FallbackCountRange(duration: nat)
    requires duration > 300
    ensures 2 <= FallbackCount(duration) <= 10 && 120 * FallbackCount(duration) <= duration
  {
  }

  lemma FallbackTimes(duration: nat, n: nat, i: nat)
    requires 0 < n && 120 * n <= duration && i < n
    ensures FallbackTime(i, duration, n) < duration
    ensures i + 1 < n ==> FallbackTime(i, duration, n) + 120 <= FallbackTime(i + 1, duration, n)
  {
    DivBelow(i, duration, n);
    DivMonotoneGap(i * duration, duration, n);
    assert (i + 1) * duration == i * duration + duration;
  }

  /** Between 2 and 10 placeholder chapters, the first at 0, each at least two minutes
      after the previous, all before the end, titled `Chapter 1`, `Chapter 2`, ... */
  lemma FallbackShape(duration: nat)
    requires duration > 300
    ensures var f := FallbackChapters(duration);
      2 <= |f| <= 10 && f[0].time == 0
      && (forall i :: 0 <= i < |f| ==> f[i].time < duration && f[i].title == NumberedTitle(i))
      && (forall k :: 0 <= k < |f| - 1 ==> f[k].time + 120 <= f[k + 1].time)
  {
    var f := FallbackChapters(duration);
    var n := FallbackCount(duration);
    FallbackCountRange(duration);
    forall i | 0 <= i < n ensures f[i].time < duration && f[i].title == NumberedTitle(i) {
      FallbackTimes(duration, n, i);
    }
    forall k | 0 <= k < n - 1 ensures f[k].time + 120 <= f[k + 1].time {
      FallbackTimes(duration, n, k);
    }
  }

  lemma FallbackCanonical(duration: nat)
    requires duration > 300
    ensures Canonical(FallbackChapters(duration))
  {
    FallbackShape(duration);
  }

  // ---- the whole post-processing step ----

  /** Sort, filter, and fall back to placeholders when nothing is left and the video is
      longer than 300 seconds. */
  function PostProcess(raw: seq<Chapter>, duration: nat): (r: seq<Chapter>)
    ensures r == [] <==> raw == [] && duration <= 300
  {
    var sorted := SortByTime(raw);
    assert raw != [] ==> sorted != [] by {
      if raw != [] {
        assert raw[0] in multiset(sorted);
      }
    }
    var unique := Dedupe(sorted);
    if |unique| == 0 && duration > 300 then FallbackChapters(duration) else unique
  }

  /** Whatever the strategies found, the result is a canonical timeline built from their
      chapters; it is empty only when they found none and the video is at most 300 s. */
  lemma PostProcessCanonical(raw: seq<Chapter>, duration: nat)
    requires AllWellFormed(raw)
    ensures Canonical(PostProcess(raw, duration))
    ensures PostProcess(raw, duration) == [] <==> raw == [] && duration <= 300
    ensures raw != [] ==> forall c :: c in PostProcess(raw, duration) ==> c in raw
  {
    var sorted := SortByTime(raw);
    SortByTimeSpec(raw);
    DedupeSpaced(sorted);
    DedupeSorted(sorted);
    var unique := Dedupe(sorted);
    forall c | c in unique ensures c in raw && WellFormed(c) {
      assert c in multiset(sorted);
    }
    if unique == [] && duration > 300 {
      FallbackCanonical(duration);
      FallbackShape(duration);
    }
    if raw == [] {
      assert sorted == [];
    } else {
      assert sorted != [] by {
        assert raw[0] in multiset(raw);
      }
    }
  }
}
