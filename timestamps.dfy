/** Timestamp text: `timeToSeconds` and `secondsToTime` (content.js:213-232), and the
    two timestamp patterns the extractor searches for, written out as character scanners:
      - in description lines, a token preceded by the line start or white space and
        followed by white space or the line end (content.js:133);
      - in chapter-list time labels, the first token anywhere (content.js:170).
    A token is 1-2 digits, a colon, optionally 2 digits and a colon, and 2 digits. */
module Timestamps {
  import opened Wrappers
  import opened Text

  /** `timeToSeconds`: split on ':' and convert every part with `Number`. A text without
      a colon is a single part and so counts as 0; only a text with a colon can be NaN. */
  function TimeToSeconds(timeStr: string): (r: Option<nat>)
    ensures ':' !in timeStr ==> r == Some(0)
    ensures r.None? ==> ':' in timeStr
  {
    var parts := Split(timeStr, ':');
    assert ':' !in timeStr ==> parts == [timeStr] by {
      if ':' !in timeStr {
        SplitNoSep(timeStr, ':');
      }
    }
    FieldsValue(parts)
  }

  /** Two parts are minutes and seconds, three are hours, minutes and seconds, any other
      count is 0. `None` is the `NaN` a non-numeric part produces. */
  function FieldsValue(parts: seq<string>): Option<nat> {
    if |parts| == 2 then
      var m, s := NumberValue(parts[0]), NumberValue(parts[1]);
      if m.Some? && s.Some? then Some(m.value * 60 + s.value) else None
    else if |parts| == 3 then
      var h, m, s := NumberValue(parts[0]), NumberValue(parts[1]), NumberValue(parts[2]);
      if h.Some? && m.Some? && s.Some? then Some(h.value * 3600 + m.value * 60 + s.value) else None
    else
      Some(0)
  }

  /** Two digit parts are minutes and seconds. */
  lemma TwoFieldsValue(m: string, s: string)
    requires AllDigits(m) && AllDigits(s)
    ensures FieldsValue([m, s]) == Some(ParseDigits(m) * 60 + ParseDigits(s))
  {
  }

  /** Three digit parts are hours, minutes and seconds. */
  lemma ThreeFieldsValue(h: string, m: string, s: string)
    requires AllDigits(h) && AllDigits(m) && AllDigits(s)
    ensures FieldsValue([h, m, s]) == Some(ParseDigits(h) * 3600 + ParseDigits(m) * 60 + ParseDigits(s))
  {
    var parts := [h, m, s];
    assert parts[0] == h && parts[1] == m && parts[2] == s;
    assert NumberValue(h) == Some(ParseDigits(h));
    assert NumberValue(m) == Some(ParseDigits(m));
    assert NumberValue(s) == Some(ParseDigits(s));
  }

  /** A part that is not a digit string makes the value `NaN`. */
  lemma NonNumericPart(parts: seq<string>, i: nat)
    requires (|parts| == 2 || |parts| == 3) && i < |parts| && !AllDigits(parts[i])
    ensures FieldsValue(parts).None?
  {
  }

  /** A text that does not split into two or three parts counts as 0 seconds. */
  lemma OtherPartCounts(timeStr: string)
    requires |Split(timeStr, ':')| != 2 && |Split(timeStr, ':')| != 3
    ensures TimeToSeconds(timeStr) == Some(0)
  {
  }

  /** `secondsToTime`: `H:MM:SS` when there is at least one whole hour, else `M:SS`. The
      text always ends in a colon and two digits, and with an hour the two digits before
      that colon follow a colon too. */
  function SecondsToTime(seconds: nat): (r: string)
    ensures |r| >= 4 && r[|r| - 3] == ':' && IsDigit(r[|r| - 2]) && IsDigit(r[|r| - 1])
    ensures seconds >= 3600 ==> |r| >= 7 && r[|r| - 6] == ':' && IsDigit(r[|r| - 5]) && IsDigit(r[|r| - 4])
  {
    var hours := seconds / 3600;
    var minutes := (seconds % 3600) / 60;
    var secs := seconds % 60;
    ClockFields(seconds);
    PadDec(minutes);
    PadDec(secs);
    if hours > 0 then
      Dec(hours) + ":" + PadStart2(Dec(minutes)) + ":" + PadStart2(Dec(secs))
    else
      Dec(minutes) + ":" + PadStart2(Dec(secs))
  }

  lemma ClockFields(n: nat)
    ensures n == (n / 3600) * 3600 + ((n % 3600) / 60) * 60 + n % 60
    ensures (n % 3600) / 60 < 60 && n % 60 < 60
    ensures n / 3600 == 0 ==> (n % 3600) / 60 == n / 60
  {
    SecondsOfHour(n % 3600);
    SecondsOfDay(n);
  }

  /** Within an hour: whole minutes below 60 and the rest below 60. */
  lemma SecondsOfHour(r: nat)
    requires r < 3600
    ensures r / 60 < 60 && r == (r / 60) * 60 + r % 60
  {
  }

  /** Taking whole hours away leaves the seconds within the minute unchanged. */
  lemma SecondsOfDay(n: nat)
    ensures n % 60 == (n % 3600) % 60
  {
    var h, r := n / 3600, n % 3600;
    SecondsOfHour(r);
    assert n == (h * 60 + r / 60) * 60 + r % 60;
    ModSixty(h * 60 + r / 60, r % 60);
  }

  /** `k` whole minutes and `s < 60` seconds leave `s` seconds past the minute. */
  lemma ModSixty(k: nat, s: nat)
    requires s < 60
    ensures (k * 60 + s) % 60 == s
  {
    var x := k * 60 + s;
    var q := x / 60;
    assert (q - k) * 60 == s - x % 60;
    assert q == k;
  }

  /** Two fields without ':' joined by ':' split back into those fields. */
  lemma SplitTwo(a: string, b: string)
    requires ':' !in a && ':' !in b
    ensures Split(a + ":" + b, ':') == [a, b]
  {
    SplitFront(a, b, ':');
    SplitNoSep(b, ':');
  }

  /** Three fields without ':' joined by ':' split back into those fields. */
  lemma SplitThree(a: string, b: string, c: string)
    requires ':' !in a && ':' !in b && ':' !in c
    ensures Split(a + ":" + b + ":" + c, ':') == [a, b, c]
  {
    assert a + ":" + b + ":" + c == a + [':'] + (b + ":" + c);
    SplitFront(a, b + ":" + c, ':');
    SplitTwo(b, c);
  }

  /** Two colon-separated digit fields read as minutes and seconds. */
  lemma ReadTwoFields(a: string, b: string)
    requires AllDigits(a) && AllDigits(b)
    ensures TimeToSeconds(a + ":" + b) == Some(ParseDigits(a) * 60 + ParseDigits(b))
  {
    DigitsHaveNoSeparator(a, ':');
    DigitsHaveNoSeparator(b, ':');
    SplitTwo(a, b);
    TwoFieldsValue(a, b);
  }

  /** Three colon-separated digit fields read as hours, minutes and seconds. */
  lemma ReadThreeFields(a: string, b: string, c: string)
    requires AllDigits(a) && AllDigits(b) && AllDigits(c)
    ensures TimeToSeconds(a + ":" + b + ":" + c)
            == Some(ParseDigits(a) * 3600 + ParseDigits(b) * 60 + ParseDigits(c))
  {
    DigitsHaveNoSeparator(a, ':');
    DigitsHaveNoSeparator(b, ':');
    DigitsHaveNoSeparator(c, ':');
    SplitThree(a, b, c);
    ThreeFieldsValue(a, b, c);
  }

  /** The display form: with at least one whole hour, three fields holding the hours
      unpadded and the minutes and seconds as two digits each; otherwise two fields, the
      minutes unpadded and the seconds as two digits. */
  lemma SecondsToTimeFields(n: nat)
    ensures var parts := Split(SecondsToTime(n), ':');
      n / 3600 > 0 ==>
        |parts| == 3 && AllDigits(parts[0]) && AllDigits(parts[1]) && AllDigits(parts[2])
        && ParseDigits(parts[0]) == n / 3600 && (|parts[0]| == 1 <==> n / 3600 < 10)
        && |parts[1]| == 2 && ParseDigits(parts[1]) == (n % 3600) / 60
        && |parts[2]| == 2 && ParseDigits(parts[2]) == n % 60
    ensures var parts := Split(SecondsToTime(n), ':');
      n / 3600 == 0 ==>
        |parts| == 2 && AllDigits(parts[0]) && AllDigits(parts[1])
        && ParseDigits(parts[0]) == n / 60 && (|parts[0]| == 1 <==> n / 60 < 10)
        && |parts[1]| == 2 && ParseDigits(parts[1]) == n % 60
  {
    var h, m, s := n / 3600, (n % 3600) / 60, n % 60;
    ClockFields(n);
    PadDec(m);
    PadDec(s);
    var mm, ss := PadStart2(Dec(m)), PadStart2(Dec(s));
    DigitsHaveNoSeparator(mm, ':');
    DigitsHaveNoSeparator(ss, ':');
    if h > 0 {
      ParseDec(h);
      DecSpec(h);
      DigitsHaveNoSeparator(Dec(h), ':');
      SplitThree(Dec(h), mm, ss);
    } else {
      ParseDec(m);
      DecSpec(m);
      DigitsHaveNoSeparator(Dec(m), ':');
      SplitTwo(Dec(m), ss);
    }
  }

  /** Every displayed time reads back as the number of seconds it was made from. */
  lemma RoundTrip(n: nat)
    ensures TimeToSeconds(SecondsToTime(n)) == Some(n)
  {
    var parts := Split(SecondsToTime(n), ':');
    SecondsToTimeFields(n);
    ClockFields(n);
    if n / 3600 > 0 {
      assert parts == [parts[0], parts[1], parts[2]];
      ThreeFieldsValue(parts[0], parts[1], parts[2]);
    } else {
      assert parts == [parts[0], parts[1]];
      TwoFieldsValue(parts[0], parts[1]);
    }
  }

  // ---- the timestamp token ----

  predicate DigitsAt(s: string, i: nat, k: nat) {
    i + k <= |s| && forall j :: i <= j < i + k ==> IsDigit(s[j])
  }

  /** `lead` digits, ':', two digits. */
  predicate IsShortToken(t: string, lead: nat) {
    |t| == lead + 3 && DigitsAt(t, 0, lead) && t[lead] == ':' && DigitsAt(t, lead + 1, 2)
  }

  /** `lead` digits, ':', two digits, ':', two digits. */
  predicate IsLongToken(t: string, lead: nat) {
    |t| == lead + 6 && DigitsAt(t, 0, lead) && t[lead] == ':' && DigitsAt(t, lead + 1, 2)
    && t[lead + 3] == ':' && DigitsAt(t, lead + 4, 2)
  }

  /** The text `\d{1,2}:(?:\d{2}:)?\d{2}` matches in full. */
  predicate IsToken(t: string) {
    IsShortToken(t, 1) || IsShortToken(t, 2) || IsLongToken(t, 1) || IsLongToken(t, 2)
  }

  /** `(?=\s|$)`: position `e` is the end of the text or white space. */
  predicate EndsAt(s: string, e: nat) {
    e == |s| || (e < |s| && IsSpace(s[e]))
  }

  /** How many leading digits `\d{1,2}:` takes at `i` (two are tried before one). */
  function LeadAt(s: string, i: nat): Option<nat> {
    if DigitsAt(s, i, 2) && i + 2 < |s| && s[i + 2] == ':' then Some(2)
    else if DigitsAt(s, i, 1) && i + 1 < |s| && s[i + 1] == ':' then Some(1)
    else None
  }

  /** The length of the token the pattern matches starting exactly at `i`, the optional
      `\d{2}:` group tried first; `bounded` adds the `(?=\s|$)` look-ahead. */
  function TokenAt(s: string, i: nat, bounded: bool): (r: Option<nat>)
    ensures r.Some? ==> i + r.value <= |s| && IsToken(s[i..i + r.value])
    ensures r.Some? && bounded ==> EndsAt(s, i + r.value)
  {
    match LeadAt(s, i)
    case None => None
    case Some(lead) =>
      var j := i + lead + 1;
      if DigitsAt(s, j, 2) && j + 2 < |s| && s[j + 2] == ':' && DigitsAt(s, j + 3, 2)
         && (!bounded || EndsAt(s, j + 5))
      then
        assert IsLongToken(s[i..j + 5], lead);
        Some(lead + 6)
      else if DigitsAt(s, j, 2) && (!bounded || EndsAt(s, j + 2)) then
        assert IsShortToken(s[i..j + 2], lead);
        Some(lead + 3)
      else
        None
  }

  /** Any token followed by white space or the end is found at its start, whole. */
  lemma BoundedTokenFound(s: string, i: nat, k: nat)
    requires i + k <= |s| && IsToken(s[i..i + k]) && EndsAt(s, i + k)
    ensures TokenAt(s, i, true) == Some(k)
  {
    var lead := TokenLead(s, i, k);
    var j := i + lead + 1;
    if k == lead + 3 {
      assert DigitsAt(s, j, 2) && EndsAt(s, j + 2);
      assert !(j + 2 < |s| && s[j + 2] == ':');
    } else {
      assert DigitsAt(s, j, 2) && s[j + 2] == ':' && DigitsAt(s, j + 3, 2) && EndsAt(s, j + 5);
    }
  }

  /** A token's leading field is what `LeadAt` takes, and its remaining digits are in place. */
  lemma TokenLead(s: string, i: nat, k: nat) returns (lead: nat)
    requires i + k <= |s| && IsToken(s[i..i + k])
    ensures LeadAt(s, i) == Some(lead) && DigitsAt(s, i + lead + 1, 2)
    ensures k == lead + 3 || (k == lead + 6 && s[i + lead + 3] == ':' && DigitsAt(s, i + lead + 4, 2))
  {
    var t := s[i..i + k];
    assert forall j :: 0 <= j < k ==> t[j] == s[i + j];
    if IsShortToken(t, 2) || IsLongToken(t, 2) {
      lead := 2;
      assert IsDigit(t[0]) && IsDigit(t[1]) && t[2] == ':';
      assert DigitsAt(s, i, 2) && s[i + 2] == ':';
    } else {
      lead := 1;
      assert IsDigit(t[0]) && t[1] == ':';
      assert !IsDigit(s[i + 1]);
      assert DigitsAt(s, i, 1) && s[i + 1] == ':';
    }
    assert IsDigit(t[lead + 1]) && IsDigit(t[lead + 2]);
    if k == lead + 6 {
      assert t[lead + 3] == ':' && IsDigit(t[lead + 4]) && IsDigit(t[lead + 5]);
    }
  }

  /** Without the look-ahead, any token start is found (possibly as a longer token). */
  lemma TokenStartFound(s: string, i: nat, k: nat)
    requires i + k <= |s| && IsToken(s[i..i + k])
    ensures TokenAt(s, i, false).Some?
  {
    var lead := TokenLead(s, i, k);
  }

  /** A token parses: its value is defined (never `NaN`). */
  lemma TokenParses(t: string)
    requires IsToken(t)
    ensures TimeToSeconds(t).Some?
  {
    var lead := if IsShortToken(t, 1) || IsLongToken(t, 1) then 1 else 2;
    var a := t[..lead];
    assert AllDigits(a);
    if IsShortToken(t, lead) {
      var b := t[lead + 1..];
      assert AllDigits(b);
      assert t == a + ":" + b;
      ReadTwoFields(a, b);
    } else {
      var b, c := t[lead + 1..lead + 3], t[lead + 4..];
      assert AllDigits(b) && AllDigits(c);
      assert t == a + ":" + b + ":" + c;
      ReadThreeFields(a, b, c);
    }
  }

  /** The seconds a token stands for. */
  function TokenSeconds(token: string): (n: nat)
    requires IsToken(token)
    ensures TimeToSeconds(token) == Some(n)
  {
    TokenParses(token);
    TimeToSeconds(token).value
  }

  /** Displayed times below 100 hours have the token's shape, so the scanners would find them. */
  lemma DisplayedTimeIsToken(n: nat)
    requires n < 100 * 3600
    ensures IsToken(SecondsToTime(n))
  {
    var h, m, s := n / 3600, (n % 3600) / 60, n % 60;
    ClockFields(n);
    PadDec(m);
    PadDec(s);
    var t := SecondsToTime(n);
    if h > 0 {
      DecSpec(h);
      var lead := |Dec(h)|;
      assert t == Dec(h) + ":" + PadStart2(Dec(m)) + ":" + PadStart2(Dec(s));
      assert IsLongToken(t, lead);
    } else {
      var lead := |Dec(m)|;
      assert IsShortToken(t, lead);
    }
  }

  // ---- the description-line pattern /(?:^|\s)(TOKEN)(?=\s|$)/ ----

  /** A match: the whole matched text is `s[start..end]`, the captured token `s[tokenStart..end]`. */
  datatype Match = Match(start: nat, tokenStart: nat, end: nat)

  /** A token starting at `q` with the line start or white space before it and white space
      or the line end after it. */
  predicate BoundedTokenAt(s: string, q: nat, k: nat) {
    q + k <= |s| && (q == 0 || IsSpace(s[q - 1])) && IsToken(s[q..q + k]) && EndsAt(s, q + k)
  }

  predicate ValidMatch(s: string, m: Match) {
    m.start <= m.tokenStart <= m.end <= |s| && m.tokenStart - m.start <= 1
    && (m.tokenStart == m.start ==> m.start == 0)
    && BoundedTokenAt(s, m.tokenStart, m.end - m.tokenStart)
  }

  /** The match beginning at `p`: `^` is tried before `\s`. */
  function MatchAt(s: string, p: nat): (r: Option<Match>)
    requires p <= |s|
    ensures r.Some? ==> r.value.start == p && ValidMatch(s, r.value)
  {
    if p == 0 && TokenAt(s, 0, true).Some? then
      var k := TokenAt(s, 0, true).value;
      assert BoundedTokenAt(s, 0, k);
      Some(Match(0, 0, k))
    else if p < |s| && IsSpace(s[p]) && TokenAt(s, p + 1, true).Some? then
      var k := TokenAt(s, p + 1, true).value;
      assert BoundedTokenAt(s, p + 1, k);
      Some(Match(p, p + 1, p + 1 + k))
    else
      None
  }

  /** The leftmost match beginning at or after `p`, as `String.prototype.match` finds it. */
  function FindLineTimestampFrom(s: string, p: nat): (r: Option<Match>)
    requires p <= |s|
    ensures r.Some? ==> p <= r.value.start && ValidMatch(s, r.value)
    decreases |s| - p
  {
    match MatchAt(s, p)
    case Some(m) => Some(m)
    case None => if p == |s| then None else FindLineTimestampFrom(s, p + 1)
  }

  function FindLineTimestamp(s: string): Option<Match> {
    FindLineTimestampFrom(s, 0)
  }

  /** A bounded token at the very start of the line is the match. */
  lemma FindAtLineStart(s: string, k: nat)
    requires BoundedTokenAt(s, 0, k)
    ensures FindLineTimestamp(s) == Some(Match(0, 0, k))
  {
    BoundedTokenFound(s, 0, k);
    assert MatchAt(s, 0) == Some(Match(0, 0, k));
  }

  /** Scanning from `p` finds a match no later than a bounded token that starts after `p`. */
  lemma FindFromIsLeftmost(s: string, p: nat, q: nat, k: nat)
    requires p < q && BoundedTokenAt(s, q, k)
    ensures FindLineTimestampFrom(s, p).Some?
    ensures FindLineTimestampFrom(s, p).value.tokenStart <= q
  {
    BoundedTokenFound(s, q, k);
    assert IsSpace(s[q - 1]) && MatchAt(s, q - 1).Some?;
    FindFromReaches(s, p, q - 1);
  }

  /** The scan from `p` stops at a match beginning at or before `e`. */
  lemma {:induction false} FindFromReaches(s: string, p: nat, e: nat)
    requires p <= e < |s| && MatchAt(s, e).Some?
    ensures FindLineTimestampFrom(s, p).Some?
    ensures FindLineTimestampFrom(s, p).value.tokenStart <= e + 1
    decreases e - p
  {
    var m := MatchAt(s, p);
    if m.Some? {
      assert FindLineTimestampFrom(s, p) == m;
    } else {
      FindFromReaches(s, p + 1, e);
      assert FindLineTimestampFrom(s, p) == FindLineTimestampFrom(s, p + 1);
    }
  }

  /** A line has a match exactly when it holds a bounded token, and the match found is
      the leftmost such token. */
  lemma LineTimestampFound(s: string)
    ensures FindLineTimestamp(s).Some? <==> exists q, k :: BoundedTokenAt(s, q, k)
    ensures forall q, k :: BoundedTokenAt(s, q, k) ==>
              FindLineTimestamp(s).Some? && FindLineTimestamp(s).value.tokenStart <= q
  {
    forall q, k | BoundedTokenAt(s, q, k)
      ensures FindLineTimestamp(s).Some? && FindLineTimestamp(s).value.tokenStart <= q
    {
      if q == 0 {
        FindAtLineStart(s, k);
      } else {
        FindFromIsLeftmost(s, 0, q, k);
      }
    }
    if FindLineTimestamp(s).Some? {
      var m := FindLineTimestamp(s).value;
      assert BoundedTokenAt(s, m.tokenStart, m.end - m.tokenStart);
    }
  }

  // ---- the chapter-list time pattern /(TOKEN)/ ----

  /** Some token occupies `s[q..q + k]`. */
  predicate TokenOccursAt(s: string, q: nat, k: nat) {
    q + k <= |s| && IsToken(s[q..q + k])
  }

  /** The leftmost token start at or after `p`; the result is the token's start and length. */
  function FindTokenFrom(s: string, p: nat): (r: Option<(nat, nat)>)
    requires p <= |s|
    ensures r.Some? ==> p <= r.value.0 && r.value.0 + r.value.1 <= |s|
                        && IsToken(s[r.value.0..r.value.0 + r.value.1])
    decreases |s| - p
  {
    match TokenAt(s, p, false)
    case Some(k) => Some((p, k))
    case None => if p == |s| then None else FindTokenFrom(s, p + 1)
  }

  function FindToken(s: string): Option<(nat, nat)> {
    FindTokenFrom(s, 0)
  }

  lemma {:induction false} FindTokenFromIsLeftmost(s: string, p: nat, q: nat, k: nat)
    requires p <= q && TokenOccursAt(s, q, k)
    ensures FindTokenFrom(s, p).Some? && FindTokenFrom(s, p).value.0 <= q
    decreases q - p
  {
    TokenStartFound(s, q, k);
    if TokenAt(s, p, false).None? {
      FindTokenFromIsLeftmost(s, p + 1, q, k);
    }
  }

  /** The token at `s[q..q + k]` starts before every other token, and no token at the same
      start is longer: the one `/\d{1,2}:(?:\d{2}:)?\d{2}/` matches. */
  ghost predicate FirstLongestToken(s: string, q: nat, k: nat) {
    TokenOccursAt(s, q, k)
    && forall q2: nat, k2: nat :: TokenOccursAt(s, q2, k2) ==> q <= q2 && (q2 == q ==> k2 <= k)
  }

  /** At a given start the pattern takes the longest token there: two leading digits
      before one, and the `H:MM:SS` form before `M:SS`. */
  lemma TokenAtLongest(s: string, i: nat, k: nat)
    requires TokenOccursAt(s, i, k)
    ensures TokenAt(s, i, false).Some? && TokenOccursAt(s, i, TokenAt(s, i, false).value)
    ensures k <= TokenAt(s, i, false).value
  {
    var lead := TokenLead(s, i, k);
  }

  /** A time label yields a token exactly when some token occurs in it; the one found
      starts no later than any other and is the longest token at its start. */
  lemma TimeLabelTokenFound(s: string)
    ensures FindToken(s).Some? <==> exists q, k :: TokenOccursAt(s, q, k)
    ensures forall q: nat, k: nat :: TokenOccursAt(s, q, k) ==>
              FindToken(s).Some? && FindToken(s).value.0 <= q
              && (q == FindToken(s).value.0 ==> k <= FindToken(s).value.1)
  {
    forall q: nat, k: nat | TokenOccursAt(s, q, k)
      ensures FindToken(s).Some? && FindToken(s).value.0 <= q
              && (q == FindToken(s).value.0 ==> k <= FindToken(s).value.1)
    {
      FindTokenFromIsLeftmost(s, 0, q, k);
      FindTokenAt(s, 0);
      if q == FindToken(s).value.0 {
        TokenAtLongest(s, q, k);
      }
    }
    if FindToken(s).Some? {
      var (q, k) := FindToken(s).value;
      assert TokenOccursAt(s, q, k);
    }
  }

  /** What the scan returns is what the pattern takes at the start it returns. */
  lemma {:induction false} FindTokenAt(s: string, p: nat)
    requires p <= |s|
    ensures FindTokenFrom(s, p).Some? ==>
              TokenAt(s, FindTokenFrom(s, p).value.0, false) == Some(FindTokenFrom(s, p).value.1)
    decreases |s| - p
  {
    if TokenAt(s, p, false).None? && p < |s| {
      FindTokenAt(s, p + 1);
    }
  }

  /** `1:23:45` is read whole, as one hour, 23 minutes and 45 seconds. */
  lemma LongTokenExample()
    ensures FindToken("1:23:45") == Some((0, 7))
    ensures TimeToSeconds("1:23:45") == Some(5025)
  {
    var s := "1:23:45";
    assert LeadAt(s, 0) == Some(1);
    assert TokenAt(s, 0, false) == Some(7);
    assert s == "1" + ":" + "23" + ":" + "45";
    ExampleDigits();
    ReadThreeFields("1", "23", "45");
  }

  lemma ExampleDigits()
    ensures AllDigits("1") && AllDigits("23") && AllDigits("45")
    ensures ParseDigits("1") == 1 && ParseDigits("23") == 23 && ParseDigits("45") == 45
  {
    assert "23"[..1] == "2" && "2"[..0] == "";
    assert "45"[..1] == "4" && "4"[..0] == "";
    assert "1"[..0] == "";
  }
}
