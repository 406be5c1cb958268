/** The four discovery strategies of `extractChapters` (content.js:44-183), each over an
    abstract view of what it reads from the page, each a loop that pushes chapter records,
    proved against a function that says what it collects. The cascade runs a strategy
    only while nothing has been collected (content.js:92, 116, 159). */
module Strategies {
  import opened Wrappers
  import opened Text
  import opened Timestamps
  import opened Chapters

  // ---- what the strategies read ----

  /** A chapter entry of the player's marker map: `NoRenderer` when it has no
      `chapterRenderer`; otherwise the renderer's `timeRangeStartMillis` and its `title`
      object, `None` when that object is missing, else its `simpleText` ("" when that
      text is missing or empty). */
  datatype RawChapter = NoRenderer | Renderer(millis: nat, title: Option<string>)
  {
    /** `title.simpleText`, "" when the renderer or its title object is missing. */
    function simpleText(): string {
      if Renderer? && title.Some? then title.value else ""
    }
  }

  /** The first path reads `chapterRenderer.timeRangeStartMillis` and
      `chapterRenderer.title.simpleText` without optional chaining: an entry is readable
      only when both the renderer and its title object are there. */
  predicate Readable(c: RawChapter) {
    c.Renderer? && c.title.Some?
  }

  /** A marker of a marker map: `value.chapters` when present. */
  type Marker = Option<seq<RawChapter>>

  /** The two places of the player response that may hold a marker map (content.js:51, 71). */
  datatype PlayerData = PlayerData(markersMap: Option<seq<Marker>>, altMarkersMap: Option<seq<Marker>>)

  /** A progress-bar segment: its start in whole seconds when its style has a `left:`
      percentage and the video a duration (`None` otherwise), and its `aria-label`. */
  datatype ProgressMarker = ProgressMarker(time: Option<nat>, ariaLabel: string)

  /** A macro-marker list item: the text of its title element and of its time element
      (`textContent || aria-label || ''`), each `None` when the element is missing. */
  datatype MacroItem = MacroItem(titleText: Option<string>, timeText: Option<string>)

  /** Everything extraction reads. `descriptions` holds, per description selector in
      order, the text of the element that selector finds, if any; a missing progress
      list is an empty `progress`. */
  datatype Page = Page(
    player: PlayerData,
    progress: seq<ProgressMarker>,
    descriptions: seq<Option<string>>,
    macroItems: seq<MacroItem>)

  // ---- strategy 1: the player's chapter metadata (content.js:44-89) ----

  /** `simpleText || \`Chapter ${index + 1}\``. */
  function TitleOr(text: string, index: nat): (t: string)
    ensures t != ""
  {
    if text != "" then text else NumberedTitle(index)
  }

  /** The chapter pushed for entry `index` of a marker's chapter list. */
  function MetadataChapter(c: RawChapter, index: nat): (r: Chapter)
    requires Readable(c)
    ensures WellFormed(r)
  {
    Chapter(c.millis / 1000, TitleOr(c.simpleText(), index))
  }

  /** How many entries the first path reads before one throws (all of them when none does). */
  function ReadableCount(chs: seq<RawChapter>): (k: nat)
    ensures k <= |chs| && (k < |chs| ==> !Readable(chs[k]))
    ensures forall i :: 0 <= i < k ==> Readable(chs[i])
  {
    if chs == [] || !Readable(chs[0]) then 0 else 1 + ReadableCount(chs[1..])
  }

  /** What the first path pushes: the entries before the first unreadable one. */
  function PrimaryChapters(chs: seq<RawChapter>): seq<Chapter> {
    MetadataPrefix(chs, ReadableCount(chs))
  }

  /** The chapters pushed for the first `n` entries. */
  function MetadataPrefix(chs: seq<RawChapter>, n: nat): (r: seq<Chapter>)
    requires n <= ReadableCount(chs)
    ensures |r| == n && AllWellFormed(r)
  {
    if n == 0 then [] else MetadataPrefix(chs, n - 1) + [MetadataChapter(chs[n - 1], n - 1)]
  }

  /** The second path reads with optional chaining: without a renderer the time is 0,
      without a title object or text the title is the default. */
  function AltChapter(c: RawChapter, index: nat): (r: Chapter)
    ensures WellFormed(r)
  {
    match c
    case Renderer(millis, _) => Chapter(millis / 1000, TitleOr(c.simpleText(), index))
    case NoRenderer => Chapter(0, NumberedTitle(index))
  }

  function AltChapters(chs: seq<RawChapter>): seq<Chapter> {
    AltPrefix(chs, |chs|)
  }

  function AltPrefix(chs: seq<RawChapter>, n: nat): (r: seq<Chapter>)
    requires n <= |chs|
    ensures |r| == n && AllWellFormed(r)
  {
    if n == 0 then [] else AltPrefix(chs, n - 1) + [AltChapter(chs[n - 1], n - 1)]
  }

  /** The first marker that has a chapter list. */
  function FirstWithChapters(markers: seq<Marker>): Option<seq<RawChapter>> {
    if markers == [] then None
    else if markers[0].Some? then markers[0]
    else FirstWithChapters(markers[1..])
  }

  /** Strategy 1 as a whole. The first path reads the first marker with chapters; an
      unreadable entry throws, which the surrounding `catch` absorbs, keeping what was
      pushed and skipping the second path. The second path runs only when the first
      pushed nothing, and reads the first marker only. */
  function MetadataChapters(data: PlayerData): (r: seq<Chapter>)
    ensures AllWellFormed(r)
  {
    var first := match data.markersMap
      case Some(ms) => FirstWithChapters(ms)
      case None => None;
    var threw := first.Some? && ReadableCount(first.value) < |first.value|;
    var primary := if first.Some? then PrimaryChapters(first.value) else [];
    if threw || primary != [] then primary
    else match data.altMarkersMap
      case Some(ms) => if |ms| > 0 && ms[0].Some? then AltChapters(ms[0].value) else []
      case None => []
  }

  /** The first path's `forEach` over one marker's chapters; `threw` when an entry throws. */
  method ReadPrimaryChapters(chs: seq<RawChapter>) returns (cs: seq<Chapter>, threw: bool)
    ensures cs == PrimaryChapters(chs)
    ensures threw <==> ReadableCount(chs) < |chs|
  {
    cs, threw := [], false;
    var i := 0;
    while i < |chs|
      invariant i <= ReadableCount(chs)
      invariant cs == MetadataPrefix(chs, i)
    {
      if !Readable(chs[i]) {
        threw := true;
        break;
      }
      cs := cs + [MetadataChapter(chs[i], i)];
      i := i + 1;
    }
  }

  method ReadAltChapters(chs: seq<RawChapter>) returns (cs: seq<Chapter>)
    ensures cs == AltChapters(chs)
  {
    cs := [];
    var i := 0;
    while i < |chs|
      invariant i <= |chs|
      invariant cs == AltPrefix(chs, i)
    {
      cs := cs + [AltChapter(chs[i], i)];
      i := i + 1;
    }
  }

  method ReadPlayerChapters(data: PlayerData) returns (cs: seq<Chapter>)
    ensures cs == MetadataChapters(data)
  {
    cs := [];
    var threw := false;
    if data.markersMap.Some? {
      var markers := data.markersMap.value;
      var m := 0;
      while m < |markers|
        invariant m <= |markers|
        invariant FirstWithChapters(markers) == FirstWithChapters(markers[m..])
        invariant cs == [] && !threw
      {
        assert markers[m..][1..] == markers[m + 1..];
        if markers[m].Some? {
          cs, threw := ReadPrimaryChapters(markers[m].value);
          break;
        }
        m := m + 1;
      }
    }
    if !threw && |cs| == 0 && data.altMarkersMap.Some? {
      var markers := data.altMarkersMap.value;
      if |markers| > 0 && markers[0].Some? {
        cs := ReadAltChapters(markers[0].value);
      }
    }
  }

  /** Metadata chapters start at the whole second of their marker's millisecond offset,
      carry their text or a numbered default title, and stop at the first unreadable entry. */
  lemma {:induction false} MetadataPrefixSpec(chs: seq<RawChapter>, n: nat)
    requires n <= ReadableCount(chs)
    ensures forall i {:trigger MetadataPrefix(chs, n)[i]} :: 0 <= i < n ==>
              (MetadataPrefix(chs, n)[i].time == chs[i].millis / 1000
               && (chs[i].simpleText() != "" ==> MetadataPrefix(chs, n)[i].title == chs[i].simpleText())
               && (chs[i].simpleText() == "" ==> MetadataPrefix(chs, n)[i].title == NumberedTitle(i)))
  {
    if n > 0 {
      MetadataPrefixSpec(chs, n - 1);
      var r, p := MetadataPrefix(chs, n), MetadataPrefix(chs, n - 1);
      var last := MetadataChapter(chs[n - 1], n - 1);
      assert r == p + [last];
      forall i | 0 <= i < n
        ensures r[i].time == chs[i].millis / 1000
        ensures chs[i].simpleText() != "" ==> r[i].title == chs[i].simpleText()
        ensures chs[i].simpleText() == "" ==> r[i].title == NumberedTitle(i)
      {
        if i < n - 1 { assert r[i] == p[i]; } else { assert r[i] == last; }
      }
    }
  }

  /** The second path yields one chapter per entry: at the whole second of the renderer's
      start (0 without a renderer), titled by its text or, when there is none, `Chapter i+1`. */
  lemma {:induction false} AltPrefixSpec(chs: seq<RawChapter>, n: nat)
    requires n <= |chs|
    ensures forall i {:trigger AltPrefix(chs, n)[i]} :: 0 <= i < n ==>
              AltPrefix(chs, n)[i].time == (if chs[i].Renderer? then chs[i].millis / 1000 else 0)
              && AltPrefix(chs, n)[i].title == TitleOr(chs[i].simpleText(), i)
  {
    if n > 0 {
      AltPrefixSpec(chs, n - 1);
      var r, p := AltPrefix(chs, n), AltPrefix(chs, n - 1);
      var last := AltChapter(chs[n - 1], n - 1);
      assert r == p + [last];
      forall i | 0 <= i < n
        ensures r[i].time == (if chs[i].Renderer? then chs[i].millis / 1000 else 0)
        ensures r[i].title == TitleOr(chs[i].simpleText(), i)
      {
        if i < n - 1 { assert r[i] == p[i]; } else { assert r[i] == last; }
      }
    }
  }

  /** An entry whose renderer has a start but no title object: the first path throws on
      it, the second keeps its start and gives it the default title. */
  lemma NoTitleEntryExample()
    ensures ReadableCount([Renderer(90000, None)]) == 0
    ensures AltChapters([Renderer(90000, None)]) == [Chapter(90, NumberedTitle(0))]
  {
    AltPrefixSpec([Renderer(90000, None)], 1);
  }

  // ---- strategy 2: progress-bar segments (content.js:91-113) ----

  /** What the segments among the first `n` push: those with a position, titled by their
      label or by their index among ALL segments. */
  function ProgressChapters(ms: seq<ProgressMarker>, n: nat): (r: seq<Chapter>)
    requires n <= |ms|
    ensures |r| <= n && AllWellFormed(r)
  {
    if n == 0 then []
    else
      ProgressChapters(ms, n - 1)
      + if ms[n - 1].time.Some? then [ProgressChapter(ms, n - 1)] else []
  }

  /** The chapter segment `i` pushes: at its position, titled by its label or `Chapter i+1`. */
  function ProgressChapter(ms: seq<ProgressMarker>, i: nat): Chapter
    requires i < |ms| && ms[i].time.Some?
  {
    Chapter(ms[i].time.value, TitleOr(ms[i].ariaLabel, i))
  }

  method ReadProgressMarkers(ms: seq<ProgressMarker>) returns (cs: seq<Chapter>)
    ensures cs == ProgressChapters(ms, |ms|)
  {
    cs := [];
    var i := 0;
    while i < |ms|
      invariant i <= |ms|
      invariant cs == ProgressChapters(ms, i)
    {
      if ms[i].time.Some? {
        cs := cs + [ProgressChapter(ms, i)];
      }
      i := i + 1;
    }
  }

  /** No chapter exactly when no segment among the first `n` has a position. */
  lemma {:induction false} ProgressChaptersSpec(ms: seq<ProgressMarker>, n: nat)
    requires n <= |ms|
    ensures (forall i :: 0 <= i < n ==> ms[i].time.None?) <==> ProgressChapters(ms, n) == []
  {
    if n > 0 {
      ProgressChaptersSpec(ms, n - 1);
    }
  }

  /** Each positioned segment among the first `n` pushes its own chapter. */
  lemma {:induction false} ProgressChaptersMembers(ms: seq<ProgressMarker>, n: nat)
    requires n <= |ms|
    ensures forall i :: 0 <= i < n && ms[i].time.Some? ==> ProgressChapter(ms, i) in ProgressChapters(ms, n)
  {
    if n > 0 {
      ProgressChaptersMembers(ms, n - 1);
      var p := ProgressChapters(ms, n - 1);
      var r := ProgressChapters(ms, n);
      forall i | 0 <= i < n && ms[i].time.Some? ensures ProgressChapter(ms, i) in r {
        if i < n - 1 {
          assert ProgressChapter(ms, i) in p;
        } else {
          assert r[|p|] == ProgressChapter(ms, i);
        }
      }
    }
  }

  /** Nothing but the chapters of positioned segments is pushed. */
  lemma {:induction false} ProgressChaptersOnlyMembers(ms: seq<ProgressMarker>, n: nat)
    requires n <= |ms|
    ensures forall c :: c in ProgressChapters(ms, n) ==>
              exists i :: 0 <= i < n && ms[i].time.Some? && c == ProgressChapter(ms, i)
  {
    if n > 0 {
      ProgressChaptersOnlyMembers(ms, n - 1);
      var p := ProgressChapters(ms, n - 1);
      var last := if ms[n - 1].time.Some? then [ProgressChapter(ms, n - 1)] else [];
      assert ProgressChapters(ms, n) == p + last;
      forall c | c in p + last ensures exists i :: 0 <= i < n && ms[i].time.Some? && c == ProgressChapter(ms, i) {
        if c in p {
          var i :| 0 <= i < n - 1 && ms[i].time.Some? && c == ProgressChapter(ms, i);
        } else {
          assert c == ProgressChapter(ms, n - 1);
        }
      }
    }
  }

  /** Segments at 30 s and 90 s around one without a position: two chapters, titled by
      label, or by the overall index when the label is empty. */
  lemma ProgressExample()
    ensures ProgressChapters([ProgressMarker(Some(30), "Intro"), ProgressMarker(None, "x"),
                              ProgressMarker(Some(90), "")], 3)
            == [Chapter(30, "Intro"), Chapter(90, NumberedTitle(2))]
  {
  }

  // ---- strategy 3: description text (content.js:115-156) ----

  predicate IsDashOrSpace(c: char) { c == '-' || IsSpace(c) }

  /** The chapter a description line yields, before the duplicate check: the time of its
      first bounded token; the title is the line without the first occurrence of the
      matched text, leading dashes and white space and trailing white space removed, or
      `Chapter at <token>` when nothing is left. */
  function LineChapter(line: string): (r: Option<Chapter>)
    ensures r.Some? ==> WellFormed(r.value)
  {
    match FindLineTimestamp(line)
    case None => None
    case Some(m) =>
      var token := line[m.tokenStart..m.end];
      assert BoundedTokenAt(line, m.tokenStart, m.end - m.tokenStart);
      var title := LineTitle(line, line[m.start..m.end]);
      Some(Chapter(TokenSeconds(token), if title != "" then title else "Chapter at " + token))
  }

  /** The line without the first occurrence of `matched`, leading dashes and white space
      and trailing white space removed. */
  function LineTitle(line: string, matched: string): string {
    Trim(DropLeading(ReplaceFirst(line, matched), IsDashOrSpace))
  }

  /** Some collected chapter starts less than 5 s from `t` (`chapters.find(...)`). */
  predicate NearAny(acc: seq<Chapter>, t: nat) {
    exists j :: 0 <= j < |acc| && Dist(acc[j].time, t) < 5
  }

  /** One line of the `forEach`, given what the line yields: push that chapter unless a
      collected one is near. */
  function KeepFound(acc: seq<Chapter>, found: Option<Chapter>): (r: seq<Chapter>)
    ensures |acc| <= |r| <= |acc| + 1 && r[..|acc|] == acc
  {
    if found.Some? && !NearAny(acc, found.value.time) then acc + [found.value] else acc
  }

  /** What each line yields, in line order. */
  function LineResults(lines: seq<string>): seq<Option<Chapter>> {
    seq(|lines|, k requires 0 <= k < |lines| => LineChapter(lines[k]))
  }

  /** The `forEach` over what the lines yield, starting from `acc`. */
  function Collect(acc: seq<Chapter>, found: seq<Option<Chapter>>): seq<Chapter>
    decreases |found|
  {
    if found == [] then acc
    else KeepFound(Collect(acc, found[..|found| - 1]), found[|found| - 1])
  }

  function ScanLines(acc: seq<Chapter>, lines: seq<string>): seq<Chapter> {
    Collect(acc, LineResults(lines))
  }

  /** Strategy 3: the selectors in order; the first whose text yields a chapter decides.
      (`chapters` is still empty whenever a selector is tried, so each starts from []). */
  function DescriptionChapters(texts: seq<Option<string>>): (r: seq<Chapter>)
    ensures Apart(r) && AllWellFormed(r)
  {
    if texts == [] then []
    else
      var here := match texts[0]
        case Some(text) => ScanLines([], Split(text, '\n'))
        case None => [];
      assert Apart(here) && AllWellFormed(here) by {
        if texts[0].Some? {
          ScanLinesSpec(Split(texts[0].value, '\n'));
        }
      }
      if here != [] then here else DescriptionChapters(texts[1..])
  }

  method ScanDescription(acc: seq<Chapter>, text: string) returns (cs: seq<Chapter>)
    ensures cs == ScanLines(acc, Split(text, '\n'))
  {
    var lines := Split(text, '\n');
    ghost var results := LineResults(lines);
    cs := acc;
    var i := 0;
    while i < |lines|
      invariant i <= |lines|
      invariant cs == Collect(acc, results[..i])
    {
      assert results[..i + 1][..i] == results[..i];
      assert Collect(acc, results[..i + 1]) == KeepFound(cs, results[i]);
      var found := LineChapter(lines[i]);
      assert found == results[i];
      if found.Some? && !NearAny(cs, found.value.time) {
        cs := cs + [found.value];
      }
      i := i + 1;
    }
    assert results[..i] == results;
  }

  method ReadDescriptions(texts: seq<Option<string>>) returns (cs: seq<Chapter>)
    ensures cs == DescriptionChapters(texts)
  {
    cs := [];
    var i := 0;
    while i < |texts|
      invariant i <= |texts|
      invariant cs == [] && DescriptionChapters(texts) == DescriptionChapters(texts[i..])
    {
      assert texts[i..][1..] == texts[i + 1..];
      if texts[i].Some? {
        cs := ScanDescription(cs, texts[i].value);
        if |cs| > 0 {
          break;
        }
      }
      i := i + 1;
    }
  }

  /** No two chapters start less than 5 s apart. */
  predicate Apart(s: seq<Chapter>) {
    forall i, j :: 0 <= i < j < |s| ==> Dist(s[i].time, s[j].time) >= 5
  }

  /** A line yields a chapter exactly when it holds a timestamp token with the line start
      or white space before it and white space or the line end after it. */
  lemma LineChapterFound(line: string)
    ensures LineChapter(line).Some? <==> exists q, k :: BoundedTokenAt(line, q, k)
  {
    LineTimestampFound(line);
  }

  /** The title cleanup of `rest` (the line with the matched text removed) leaves nothing
      exactly when `rest` is all dashes and white space. */
  lemma CleanTitleEmpty(rest: string)
    ensures Trim(DropLeading(rest, IsDashOrSpace)) == "" <==> forall i :: 0 <= i < |rest| ==> IsDashOrSpace(rest[i])
  {
    var d := DropLeading(rest, IsDashOrSpace);
    DropLeadingDropsOnly(rest, IsDashOrSpace);
    assert DropLeading(d, IsSpace) == d;
    var t := TrimEnd(d);
    assert Trim(d) == t;
    TrimEndDropsOnlySpace(d);
    if d != [] {
      assert !IsSpace(d[0]) && |t| >= 1;
      assert d[0] == rest[|rest| - |d|];
    }
  }

  /** Trimming text that does not start with white space only trims its end. */
  lemma TrimUnspaced(d: string)
    requires d == [] || !IsDashOrSpace(d[0])
    ensures Trim(d) == TrimEnd(d)
  {
    assert DropLeading(d, IsSpace) == d;
  }

  /** Otherwise the cleanup cuts a run of dashes and white space from the front of `rest`
      (the first `j` characters) and a run of white space from its back, so the title
      starts with neither and does not end in white space. */
  lemma CleanTitleShape(rest: string) returns (j: nat, t: string)
    ensures t == Trim(DropLeading(rest, IsDashOrSpace))
    ensures t != "" ==> !IsDashOrSpace(t[0]) && !IsSpace(t[|t| - 1])
    ensures j + |t| <= |rest| && t == rest[j..j + |t|]
    ensures forall i :: 0 <= i < j ==> IsDashOrSpace(rest[i])
    ensures forall i :: j + |t| <= i < |rest| ==> IsSpace(rest[i])
  {
    var d := DropLeading(rest, IsDashOrSpace);
    DropLeadingDropsOnly(rest, IsDashOrSpace);
    j := |rest| - |d|;
    TrimUnspaced(d);
    t := TrimEnd(d);
    TrimEndDropsOnlySpace(d);
    SuffixSlice(rest, j, d, t);
  }

  /** A prefix `t` of the suffix `d == rest[j..]` is a slice of `rest`, and what follows `t`
      in `d` is what follows it in `rest`. */
  lemma SuffixSlice(rest: string, j: nat, d: string, t: string)
    requires j <= |rest| && d == rest[j..] && |t| <= |d| && t == d[..|t|]
    requires forall i :: |t| <= i < |d| ==> IsSpace(d[i])
    ensures j + |t| <= |rest| && t == rest[j..j + |t|]
    ensures forall i :: j + |t| <= i < |rest| ==> IsSpace(rest[i])
  {
    forall i | j + |t| <= i < |rest| ensures IsSpace(rest[i]) {
      assert rest[i] == d[i - j];
    }
  }

  /** A line's chapter starts at the value of the leftmost bounded token; its title is the
      cleaned-up rest of the line, or `Chapter at <token>` when that is empty. */
  lemma LineChapterSpec(line: string)
    requires exists q, k :: BoundedTokenAt(line, q, k)
    ensures LineChapter(line).Some? && FindLineTimestamp(line).Some?
    ensures var m, c := FindLineTimestamp(line).value, LineChapter(line).value;
      var token := line[m.tokenStart..m.end];
      BoundedTokenAt(line, m.tokenStart, m.end - m.tokenStart)
      && (forall q, k :: BoundedTokenAt(line, q, k) ==> m.tokenStart <= q)
      && TimeToSeconds(token) == Some(c.time)
      && c.title == (if LineTitle(line, line[m.start..m.end]) != "" then LineTitle(line, line[m.start..m.end])
                     else "Chapter at " + token)
  {
    LineTimestampFound(line);
    var m := FindLineTimestamp(line).value;
    var token := line[m.tokenStart..m.end];
    assert BoundedTokenAt(line, m.tokenStart, m.end - m.tokenStart);
    var title := LineTitle(line, line[m.start..m.end]);
    assert LineChapter(line) == Some(Chapter(TokenSeconds(token), if title != "" then title else "Chapter at " + token));
  }

  /** The title drops the FIRST occurrence of the matched text, which may lie before the
      match: in `a 1:234 1:23` the match is ` 1:23` at 7, but the text cut is at 1. */
  lemma ReplaceQuirkExample()
    ensures FindLineTimestamp("a 1:234 1:23") == Some(Match(7, 8, 12))
    ensures LineTitle("a 1:234 1:23", " 1:23") == "a4 1:23"
  {
    var line := "a 1:234 1:23";
    assert QuirkLine(line);
    QuirkMatch(line);
    QuirkTitle(line);
    QuirkPieces(line);
  }

  /** The matched text and the cut line, spelled out. */
  lemma QuirkPieces(line: string)
    requires QuirkLine(line)
    ensures line[1..6] == " 1:23" && line[..1] + line[6..] == "a4 1:23"
  {
    var cut, rest := line[1..6], line[..1] + line[6..];
    assert |cut| == 5 && cut[0] == ' ' && cut[1] == '1' && cut[2] == ':' && cut[3] == '2' && cut[4] == '3';
    assert |rest| == 7 && rest[0] == 'a' && rest[1] == '4' && rest[2] == ' ' && rest[3] == '1'
           && rest[4] == ':' && rest[5] == '2' && rest[6] == '3';
  }

  /** The characters of `a 1:234 1:23`, one by one. */
  predicate QuirkLine(line: string) {
    |line| == 12 && line[0] == 'a' && line[1] == ' ' && line[2] == '1' && line[3] == ':'
    && line[4] == '2' && line[5] == '3' && line[6] == '4' && line[7] == ' ' && line[8] == '1'
    && line[9] == ':' && line[10] == '2' && line[11] == '3'
  }

  /** Only the second `1:23` is bounded: the first runs on into the digit `4`. */
  lemma QuirkMatch(line: string)
    requires QuirkLine(line)
    ensures FindLineTimestamp(line) == Some(Match(7, 8, 12))
  {
    QuirkMatchAtSpace(line);
    QuirkNoEarlierMatch(line);
    assert FindLineTimestampFrom(line, 7) == Some(Match(7, 8, 12));
    assert FindLineTimestampFrom(line, 6) == FindLineTimestampFrom(line, 7);
    assert FindLineTimestampFrom(line, 5) == FindLineTimestampFrom(line, 6);
    assert FindLineTimestampFrom(line, 4) == FindLineTimestampFrom(line, 5);
    assert FindLineTimestampFrom(line, 3) == FindLineTimestampFrom(line, 4);
    assert FindLineTimestampFrom(line, 2) == FindLineTimestampFrom(line, 3);
    assert FindLineTimestampFrom(line, 1) == FindLineTimestampFrom(line, 2);
  }

  lemma QuirkMatchAtSpace(line: string)
    requires QuirkLine(line)
    ensures MatchAt(line, 7) == Some(Match(7, 8, 12))
  {
    assert LeadAt(line, 8) == Some(1);
  }

  lemma QuirkNoEarlierMatch(line: string)
    requires QuirkLine(line)
    ensures forall p :: 0 <= p < 7 ==> MatchAt(line, p) == None
  {
    assert LeadAt(line, 0) == None;
    assert LeadAt(line, 2) == Some(1);
    assert TokenAt(line, 2, true) == None;
  }

  /** The cleaned title is the line with the text at 1..6 cut out. */
  lemma QuirkTitle(line: string)
    requires QuirkLine(line)
    ensures LineTitle(line, line[1..6]) == line[..1] + line[6..]
  {
    QuirkCut(line);
    var d := line[..1] + line[6..];
    assert !IsDashOrSpace(d[0]) && !IsSpace(d[|d| - 1]) by {
      assert |d| == 7 && d[0] == line[0] && d[6] == line[11];
    }
    assert DropLeading(d, IsDashOrSpace) == d;
    TrimUnspaced(d);
    assert TrimEnd(d) == d;
  }

  /** `replace(' 1:23', '')` cuts at 1, where the unbounded `1:234` begins. */
  lemma QuirkCut(line: string)
    requires QuirkLine(line)
    ensures ReplaceFirst(line, line[1..6]) == line[..1] + line[6..]
  {
    assert OccursAt(line, line[1..6], 1);
    assert !OccursAt(line, line[1..6], 0) by { assert line[0] != line[1]; }
    assert IndexOfFrom(line, line[1..6], 0) == Some(1);
  }

  /** One line adds at most its own chapter, and only when no collected chapter is near. */
  lemma KeepFoundSpec(acc: seq<Chapter>, found: Option<Chapter>)
    ensures var r := KeepFound(acc, found);
      r == acc || (found.Some? && r == acc + [found.value] && !NearAny(acc, found.value.time))
    ensures found.Some? && !NearAny(acc, found.value.time) ==> KeepFound(acc, found) == acc + [found.value]
  {
  }

  /** Scanning keeps what was collected and adds at most one chapter per line. */
  lemma {:induction false} CollectGrows(acc: seq<Chapter>, found: seq<Option<Chapter>>)
    ensures var r := Collect(acc, found);
      |acc| <= |r| <= |acc| + |found| && r[..|acc|] == acc
    decreases |found|
  {
    if found != [] {
      CollectGrows(acc, found[..|found| - 1]);
      KeepFoundSpec(Collect(acc, found[..|found| - 1]), found[|found| - 1]);
    }
  }

  /** Every chapter scanning adds is one that some line yields. */
  lemma {:induction false} CollectFrom(acc: seq<Chapter>, found: seq<Option<Chapter>>)
    ensures var r := Collect(acc, found);
      forall i :: |acc| <= i < |r| ==> Some(r[i]) in found
    decreases |found|
  {
    if found != [] {
      var init := found[..|found| - 1];
      var last := found[|found| - 1];
      CollectFrom(acc, init);
      CollectGrows(acc, init);
      var prev := Collect(acc, init);
      var r := Collect(acc, found);
      KeepFoundSpec(prev, last);
      forall i | |acc| <= i < |r| ensures Some(r[i]) in found {
        if i < |prev| {
          assert r[i] == prev[i] && Some(prev[i]) in init;
        } else {
          assert last == Some(r[i]);
        }
      }
    }
  }

  /** Scanning never adds a chapter within 5 s of one already collected. */
  lemma {:induction false} CollectApart(acc: seq<Chapter>, found: seq<Option<Chapter>>)
    requires Apart(acc)
    ensures Apart(Collect(acc, found))
    decreases |found|
  {
    if found != [] {
      var init := found[..|found| - 1];
      var last := found[|found| - 1];
      CollectApart(acc, init);
      var prev := Collect(acc, init);
      var r := Collect(acc, found);
      KeepFoundSpec(prev, last);
      if r != prev {
        var c := last.value;
        forall i, j | 0 <= i < j < |r| ensures Dist(r[i].time, r[j].time) >= 5 {
          if j == |prev| {
            assert !(Dist(prev[i].time, c.time) < 5);
          } else {
            assert r[i] == prev[i] && r[j] == prev[j];
          }
        }
      }
    }
  }

  /** Scanning ends with something collected when it starts with something, or when
      some line yields a chapter: the first such line is pushed, as nothing is near yet. */
  lemma {:induction false} CollectNonEmpty(acc: seq<Chapter>, found: seq<Option<Chapter>>, k: nat)
    requires acc != [] || (k < |found| && found[k].Some?)
    ensures Collect(acc, found) != []
    decreases |found|
  {
    if found != [] {
      var init := found[..|found| - 1];
      var prev := Collect(acc, init);
      if acc != [] || k < |init| {
        CollectNonEmpty(acc, init, k);
      }
      KeepFoundSpec(prev, found[|found| - 1]);
      if prev == [] {
        assert k == |found| - 1 && found[k].Some?;
        assert !NearAny(prev, found[k].value.time);
      }
    }
  }

  /** Some line of the text holds a bounded timestamp token. */
  ghost predicate HasTimestampLine(text: string) {
    var lines := Split(text, '\n');
    exists k, q, n :: 0 <= k < |lines| && BoundedTokenAt(lines[k], q, n)
  }

  /** A text's scan collects something exactly when one of its lines holds a bounded
      timestamp token. */
  lemma ScanFindsTimestamp(text: string)
    ensures ScanLines([], Split(text, '\n')) != [] <==> HasTimestampLine(text)
  {
    var lines := Split(text, '\n');
    var found := LineResults(lines);
    if HasTimestampLine(text) {
      var k, q, n :| 0 <= k < |lines| && BoundedTokenAt(lines[k], q, n);
      LineChapterFound(lines[k]);
      assert found[k] == LineChapter(lines[k]);
      CollectNonEmpty([], found, k);
    }
    var r := ScanLines([], lines);
    assert r == Collect([], found);
    if r != [] {
      CollectFrom([], found);
      assert Some(r[0]) in found;
      var k :| 0 <= k < |found| && found[k] == Some(r[0]);
      assert LineChapter(lines[k]).Some?;
      LineChapterFound(lines[k]);
    }
  }

  /** The description strategy finds something exactly when the text of some selector
      has a line holding a bounded timestamp token. */
  lemma {:induction false} DescriptionFindsTimestamp(texts: seq<Option<string>>)
    ensures DescriptionChapters(texts) != [] <==>
              exists i :: 0 <= i < |texts| && texts[i].Some? && HasTimestampLine(texts[i].value)
  {
    if texts != [] {
      DescriptionFindsTimestamp(texts[1..]);
      if texts[0].Some? {
        ScanFindsTimestamp(texts[0].value);
      }
      if exists i :: 0 <= i < |texts| && texts[i].Some? && HasTimestampLine(texts[i].value) {
        var i :| 0 <= i < |texts| && texts[i].Some? && HasTimestampLine(texts[i].value);
        if i > 0 {
          assert texts[1..][i - 1] == texts[i];
        }
      }
      if exists i :: 0 <= i < |texts[1..]| && texts[1..][i].Some? && HasTimestampLine(texts[1..][i].value) {
        var i :| 0 <= i < |texts[1..]| && texts[1..][i].Some? && HasTimestampLine(texts[1..][i].value);
        assert texts[i + 1] == texts[1..][i];
      }
    }
  }

  /** Scanning adds only chapters the lines yield, so it keeps every chapter well-formed
      when every line's chapter is. */
  lemma CollectWellFormed(acc: seq<Chapter>, found: seq<Option<Chapter>>)
    requires AllWellFormed(acc)
    requires forall k :: 0 <= k < |found| && found[k].Some? ==> WellFormed(found[k].value)
    ensures AllWellFormed(Collect(acc, found))
  {
    var r := Collect(acc, found);
    CollectGrows(acc, found);
    CollectFrom(acc, found);
    forall c | c in r ensures WellFormed(c) {
      var i :| 0 <= i < |r| && r[i] == c;
      if i < |acc| {
        assert r[..|acc|][i] == c;
      } else {
        assert Some(c) in found;
        var k :| 0 <= k < |found| && found[k] == Some(c);
      }
    }
  }

  /** A fresh scan of a text's lines yields well-formed chapters no two within 5 s. */
  lemma ScanLinesSpec(lines: seq<string>)
    ensures Apart(ScanLines([], lines)) && AllWellFormed(ScanLines([], lines))
  {
    var found := LineResults(lines);
    CollectApart([], found);
    forall k | 0 <= k < |found| && found[k].Some? ensures WellFormed(found[k].value) {
      assert found[k] == LineChapter(lines[k]);
    }
    CollectWellFormed([], found);
  }

  // ---- strategy 4: macro-marker list items (content.js:158-183) ----

  /** Item `index`: the trimmed title or the numbered default; the time of the first token
      in its time text, or 0 without a time element or token. */
  function MacroChapter(item: MacroItem, index: nat): (r: Chapter)
    ensures WellFormed(r)
  {
    var trimmed := if item.titleText.Some? then Trim(item.titleText.value) else "";
    var time := match item.timeText
      case Some(text) =>
        (match FindToken(text)
         case Some((q, k)) => TokenSeconds(text[q..q + k])
         case None => 0)
      case None => 0;
    Chapter(time, TitleOr(trimmed, index))
  }

  function MacroChapters(items: seq<MacroItem>): seq<Chapter> {
    MacroPrefix(items, |items|)
  }

  function MacroPrefix(items: seq<MacroItem>, n: nat): (r: seq<Chapter>)
    requires n <= |items|
    ensures |r| == n && AllWellFormed(r)
  {
    if n == 0 then [] else MacroPrefix(items, n - 1) + [MacroChapter(items[n - 1], n - 1)]
  }

  method ReadMacroItems(items: seq<MacroItem>) returns (cs: seq<Chapter>)
    ensures cs == MacroChapters(items)
  {
    cs := [];
    var i := 0;
    while i < |items|
      invariant i <= |items|
      invariant cs == MacroPrefix(items, i)
    {
      cs := cs + [MacroChapter(items[i], i)];
      i := i + 1;
    }
  }

  /** Every item yields exactly one chapter. */
  lemma {:induction false} MacroPrefixSpec(items: seq<MacroItem>, n: nat)
    requires n <= |items|
    ensures forall i {:trigger MacroPrefix(items, n)[i]} :: 0 <= i < n ==>
              MacroPrefix(items, n)[i] == MacroChapter(items[i], i)
  {
    if n > 0 {
      MacroPrefixSpec(items, n - 1);
      var r, p := MacroPrefix(items, n), MacroPrefix(items, n - 1);
      var last := MacroChapter(items[n - 1], n - 1);
      assert r == p + [last];
      forall i | 0 <= i < n ensures r[i] == MacroChapter(items[i], i) {
        if i < n - 1 { assert r[i] == p[i]; } else { assert r[i] == last; }
      }
    }
  }

  /** An item starts at 0 when its time element is missing or holds no token, and at the
      value of a token otherwise; its title is its trimmed title text when that is not empty. */
  lemma MacroChapterSpec(item: MacroItem, index: nat)
    ensures item.timeText.None? || (forall q, k :: !TokenOccursAt(item.timeText.value, q, k))
            ==> MacroChapter(item, index).time == 0
    ensures item.timeText.Some? && (exists q, k :: TokenOccursAt(item.timeText.value, q, k))
            ==> exists q: nat, k: nat :: FirstLongestToken(item.timeText.value, q, k)
                  && TimeToSeconds(item.timeText.value[q..q + k]) == Some(MacroChapter(item, index).time)
    ensures item.titleText.Some? && Trim(item.titleText.value) != ""
            ==> MacroChapter(item, index).title == Trim(item.titleText.value)
    ensures item.titleText.None? || Trim(item.titleText.value) == ""
            ==> MacroChapter(item, index).title == NumberedTitle(index)
  {
    if item.timeText.Some? {
      var text := item.timeText.value;
      TimeLabelTokenFound(text);
      if FindToken(text).Some? {
        var (q, k) := FindToken(text).value;
        assert TokenOccursAt(text, q, k);
        assert FirstLongestToken(text, q, k);
      }
    }
  }

  /** A time label `1:23:45` puts the item at 5025 s, not at the 83 s of its `1:23` prefix. */
  lemma MacroTimeExample()
    ensures MacroChapter(MacroItem(None, Some("1:23:45")), 0).time == 5025
  {
    LongTokenExample();
    assert "1:23:45"[0..7] == "1:23:45";
  }

  // ---- the cascade and the whole extraction ----

  /** The first strategy that finds anything decides. */
  function RawChapters(page: Page): (r: seq<Chapter>)
    ensures AllWellFormed(r)
    ensures |page.macroItems| > 0 ==> r != []
  {
    var metadata := MetadataChapters(page.player);
    if metadata != [] then metadata
    else
      var progress := ProgressChapters(page.progress, |page.progress|);
      if progress != [] then progress
      else
        var description := DescriptionChapters(page.descriptions);
        if description != [] then description
        else MacroChapters(page.macroItems)
  }

  /** The cascade: each strategy runs only when every earlier one found nothing. */
  method ReadStrategies(page: Page) returns (raw: seq<Chapter>)
    ensures raw == RawChapters(page)
  {
    raw := ReadPlayerChapters(page.player);
    if |raw| == 0 {
      raw := ReadProgressMarkers(page.progress);
    }
    if |raw| == 0 {
      raw := ReadDescriptions(page.descriptions);
    }
    if |raw| == 0 {
      raw := ReadMacroItems(page.macroItems);
    }
  }

  /** What `extractChapters` stores in `chapters` for a video of `duration` seconds. */
  function ExtractedChapters(page: Page, duration: nat): seq<Chapter> {
    PostProcess(RawChapters(page), duration)
  }

  /** Extraction always yields a canonical timeline made of what one strategy found, or
      the placeholders; it is empty only when no strategy found anything and the video
      is at most five minutes long. */
  lemma ExtractedCanonical(page: Page, duration: nat)
    ensures Canonical(ExtractedChapters(page, duration))
    ensures ExtractedChapters(page, duration) == [] <==> RawChapters(page) == [] && duration <= 300
  {
    PostProcessCanonical(RawChapters(page), duration);
  }
}
