/** The status-bar module for the Timewarrior time tracker: it turns today's list of
    tracked intervals into a status record (a state and a display text) and decides
    which command a click on the widget issues.

    Timestamps are whole seconds since the epoch, already parsed. The current time is
    the parameter `now`, read once by the caller and used for every open interval. */
module Timew {
  import opened PyFormat

  datatype Option<T> = None | Some(value: T)

  /** One interval of `timew export :today`. A missing `end` means the interval is
      still being tracked; a missing `tags` field is distinct from an empty list. */
  datatype Task = Task(id: int, start: int, end: Option<int>, tags: Option<seq<string>>)

  /** The module-level settings dictionary, threaded as a value. */
  datatype Config = Config(
    showSeconds: bool,
    tagCharacter: string,
    fallbackTagIndex: int,
    idleThreshold: int)  // minutes; 0 means "use 10"

  const DefaultConfig := Config(true, "-", -1, 10)

  datatype Status = Active | Paused | Stopped | Idle

  /** The status record that is serialised as `{"class": ..., "text": ...}`. */
  datatype Waybar = Waybar(status: Status, text: string)

  /** The record shown when nothing is tracked: the empty text hides the widget. */
  const NoTracking := Waybar(Stopped, "")

  /** Indexing the tag list with the fallback index raised `IndexError`. */
  datatype TagError = FallbackIndexOutOfRange(index: int, count: nat)

  datatype Result<T> = Ok(value: T) | Err(error: TagError)

  /** The command the toggle action runs: `timew continue` or `timew stop`. */
  datatype Command = Continue | Stop

  /** The JSON value of a status, `Status.to_json`. */
  function StatusName(s: Status): string
  {
    match s
    case Active => "active"
    case Paused => "paused"
    case Stopped => "stopped"
    case Idle => "idle"
  }

  lemma StatusNameInjective(s: Status, u: Status)
    ensures StatusName(s) == StatusName(u) <==> s == u
  {
  }

  // ---------------------------------------------------------------------------
  // Totals

  /** Seconds covered by one interval; an open interval runs until `now`. */
  function Span(t: Task, now: int): int
  {
    (if t.end.Some? then t.end.value else now) - t.start
  }

  /** The sum of the spans of `tasks`, accumulated in list order. */
  function TotalSeconds(tasks: seq<Task>, now: int): int
  {
    if tasks == [] then 0
    else TotalSeconds(tasks[..|tasks| - 1], now) + Span(tasks[|tasks| - 1], now)
  }

  /** An interval does not end before it starts (an open one has started by `now`). */
  predicate WellFormed(t: Task, now: int)
  {
    t.start <= if t.end.Some? then t.end.value else now
  }

  lemma {:induction false} TotalNonNegative(tasks: seq<Task>, now: int)
    requires forall t :: t in tasks ==> WellFormed(t, now)
    ensures TotalSeconds(tasks, now) >= 0
  {
    if tasks != [] {
      var init := tasks[..|tasks| - 1];
      assert forall t :: t in init ==> t in tasks;
      assert tasks[|tasks| - 1] in tasks;
      TotalNonNegative(init, now);
    }
  }

  lemma {:induction false} TotalAppend(a: seq<Task>, b: seq<Task>, now: int)
    ensures TotalSeconds(a + b, now) == TotalSeconds(a, now) + TotalSeconds(b, now)
    decreases |b|
  {
    if b == [] {
      assert a + b == a;
    } else {
      assert (a + b)[..|a + b| - 1] == a + b[..|b| - 1];
      TotalAppend(a, b[..|b| - 1], now);
    }
  }

  // ---------------------------------------------------------------------------
  // HH:MM[:SS]

  /** Number of characters after the hours field: ":MM:SS" or ":MM". */
  function TailLength(showSeconds: bool): nat { if showSeconds then 6 else 3 }

  /** `calculate_total`'s rendering of a number of seconds. Hours are not wrapped at
      24; minutes and seconds are always two digits. */
  function FormatDuration(seconds: int, showSeconds: bool): (r: string)
    ensures |r| >= 2 + TailLength(showSeconds)
    ensures 0 <= seconds < 100 * 3600 ==> |r| == 2 + TailLength(showSeconds)
    ensures r[|r| - TailLength(showSeconds)] == ':' && r[|r| - 3] == ':'
  {
    var hours := seconds / 3600;
    var minutes := (seconds % 3600) / 60;
    var tail := if showSeconds then ":" + Pad2(seconds % 60) else "";
    Pad2(hours) + ":" + Pad2(minutes) + tail
  }

  predicate IsClockChar(c: char) { IsDigit(c) || c == ':' || c == '-' }

  function HoursField(r: string, showSeconds: bool): string
    requires |r| >= TailLength(showSeconds)
  {
    r[..|r| - TailLength(showSeconds)]
  }

  function MinutesField(r: string, showSeconds: bool): string
    requires |r| >= TailLength(showSeconds)
  {
    r[|r| - TailLength(showSeconds) + 1 .. |r| - TailLength(showSeconds) + 3]
  }

  function SecondsField(r: string): string
    requires |r| >= 2
  {
    r[|r| - 2..]
  }

  /** Reads an `HH:MM[:SS]` text back into seconds; the hours field may have any width. */
  function ReadClock(r: string, showSeconds: bool): Option<int>
  {
    var n := TailLength(showSeconds);
    if |r| < n || r[|r| - n] != ':' || r[|r| - 3] != ':' then None
    else
      Some(3600 * ValueOf(HoursField(r, showSeconds))
           + 60 * ValueOf(MinutesField(r, showSeconds))
           + (if showSeconds then ValueOf(SecondsField(r)) else 0))
  }

  /** The fields of the rendered text hold the hours (unwrapped), the minutes and the
      seconds of the total, minutes and seconds within 0..59. */
  lemma ClockFields(seconds: int, showSeconds: bool)
    ensures var r := FormatDuration(seconds, showSeconds);
      && ValueOf(HoursField(r, showSeconds)) == seconds / 3600
      && ValueOf(MinutesField(r, showSeconds)) == (seconds % 3600) / 60
      && 0 <= ValueOf(MinutesField(r, showSeconds)) < 60
      && (showSeconds ==> ValueOf(SecondsField(r)) == seconds % 60 < 60)
  {
    var h, m, sec := ClockArith(seconds);
    ClockLayout(Pad2(h), Pad2(m), Pad2(sec));
    if showSeconds {
      ClockTextSeconds(seconds, h, m, sec);
    } else {
      ClockTextMinutes(seconds, h, m);
    }
  }

  /** With two-character minutes and seconds, the fields are cut back out of the text
      at fixed distances from its end, whatever the width of the hours. */
  lemma ClockLayout(hh: string, mm: string, ss: string)
    requires |mm| == 2 && |ss| == 2
    ensures var r := hh + ":" + mm + ":" + ss;
      && |r| == |hh| + 6 && r[|r| - 6] == ':' && r[|r| - 3] == ':'
      && HoursField(r, true) == hh && MinutesField(r, true) == mm && SecondsField(r) == ss
    ensures var r := hh + ":" + mm;
      && |r| == |hh| + 3 && r[|r| - 3] == ':'
      && HoursField(r, false) == hh && MinutesField(r, false) == mm
  {
    var r := hh + ":" + mm + ":" + ss;
    assert HoursField(r, true) == hh;
    assert MinutesField(r, true) == mm;
    assert SecondsField(r) == ss;
    var r' := hh + ":" + mm;
    assert HoursField(r', false) == hh;
    assert MinutesField(r', false) == mm;
  }

  /** The hours, minutes and seconds of a total, and how they add up to it. */
  lemma ClockArith(seconds: int) returns (h: int, m: int, sec: int)
    ensures h == seconds / 3600 && m == (seconds % 3600) / 60 && sec == seconds % 60
    ensures 0 <= m < 60 && 0 <= sec < 60
    ensures 3600 * h + 60 * m + sec == seconds
    ensures seconds - seconds % 60 == 3600 * h + 60 * m
  {
    var rem := seconds % 3600;
    h, m, sec := seconds / 3600, rem / 60, rem % 60;
    assert seconds == 3600 * h + rem;
    assert rem == 60 * m + sec;
    DivMod60(seconds, 60 * h + m, sec);
  }

  /** Euclidean division by 60 is unique. */
  lemma DivMod60(x: int, q: int, r: int)
    requires x == 60 * q + r && 0 <= r < 60
    ensures x / 60 == q && x % 60 == r
  {
  }

  lemma ClockTextSeconds(seconds: int, h: int, m: int, sec: int)
    requires h == seconds / 3600 && m == (seconds % 3600) / 60 && sec == seconds % 60
    ensures FormatDuration(seconds, true) == Pad2(h) + ":" + Pad2(m) + ":" + Pad2(sec)
  {
    var hm := Pad2(h) + ":" + Pad2(m);
    assert hm + (":" + Pad2(sec)) == hm + ":" + Pad2(sec);
  }

  lemma ClockTextMinutes(seconds: int, h: int, m: int)
    requires h == seconds / 3600 && m == (seconds % 3600) / 60
    ensures FormatDuration(seconds, false) == Pad2(h) + ":" + Pad2(m)
  {
    var hm := Pad2(h) + ":" + Pad2(m);
    assert hm + "" == hm;
  }

  /** A rendered total holds only digits, colons and a minus sign. */
  lemma ClockChars(seconds: int, showSeconds: bool)
    ensures forall c :: c in FormatDuration(seconds, showSeconds) ==> IsClockChar(c)
  {
    var h, m, sec := ClockArith(seconds);
    Pad2Chars(h);
    Pad2Chars(m);
    Pad2Chars(sec);
    if showSeconds {
      ClockTextSeconds(seconds, h, m, sec);
    } else {
      ClockTextMinutes(seconds, h, m);
    }
  }

  lemma Pad2Chars(n: int)
    ensures forall c :: c in Pad2(n) ==> IsClockChar(c)
  {
    var r := Pad2(n);
    forall c | c in r ensures IsClockChar(c) {
      var i :| 0 <= i < |r| && r[i] == c;
      if n < 0 && i > 0 {
        assert r[1..][i - 1] == c;
      }
    }
  }

  /** A total as it can be read back: to the second, or rounded down to the minute. */
  function MinuteOrSecond(seconds: int, showSeconds: bool): int
  {
    if showSeconds then seconds else seconds - seconds % 60
  }

  /** Reading the rendered text gives back the total, to the second when seconds are
      shown and rounded down to the minute when they are not. */
  lemma ClockRoundTrip(seconds: int, showSeconds: bool)
    ensures ReadClock(FormatDuration(seconds, showSeconds), showSeconds)
            == Some(MinuteOrSecond(seconds, showSeconds))
  {
    if showSeconds {
      SecondsRoundTrip(seconds);
    } else {
      MinutesRoundTrip(seconds);
    }
  }

  lemma SecondsRoundTrip(seconds: int)
    ensures ReadClock(FormatDuration(seconds, true), true) == Some(seconds)
  {
    var h, m, sec := ClockArith(seconds);
    ClockTextSeconds(seconds, h, m, sec);
    ReadClockSeconds(h, m, sec, seconds);
  }

  lemma MinutesRoundTrip(seconds: int)
    ensures ReadClock(FormatDuration(seconds, false), false) == Some(seconds - seconds % 60)
  {
    var h, m, sec := ClockArith(seconds);
    ClockTextMinutes(seconds, h, m);
    ReadClockMinutes(h, m, seconds - seconds % 60);
  }

  /** Reading back the three fields of a rendered total. */
  lemma ReadClockSeconds(h: int, m: int, sec: int, v: int)
    requires 3600 * h + 60 * m + sec == v
    requires 0 <= m < 60 && 0 <= sec < 60
    ensures ReadClock(Pad2(h) + ":" + Pad2(m) + ":" + Pad2(sec), true) == Some(v)
  {
    ReadClockFields(Pad2(h), Pad2(m), Pad2(sec));
  }

  /** Reading back the hours and minutes fields of a rendered total. */
  lemma ReadClockMinutes(h: int, m: int, v: int)
    requires v == 3600 * h + 60 * m
    requires 0 <= m < 60
    ensures ReadClock(Pad2(h) + ":" + Pad2(m), false) == Some(v)
  {
    ReadClockFields(Pad2(h), Pad2(m), Pad2(0));
  }

  /** Reading back a text laid out with two-character minutes and seconds. */
  lemma ReadClockFields(hh: string, mm: string, ss: string)
    requires |mm| == 2 && |ss| == 2
    ensures ReadClock(hh + ":" + mm + ":" + ss, true)
            == Some(3600 * ValueOf(hh) + 60 * ValueOf(mm) + ValueOf(ss))
    ensures ReadClock(hh + ":" + mm, false) == Some(3600 * ValueOf(hh) + 60 * ValueOf(mm))
  {
    ClockLayout(hh, mm, ss);
  }

  /** With seconds shown, two totals render alike exactly when they are equal. */
  lemma FormatInjective(a: int, b: int)
    ensures FormatDuration(a, true) == FormatDuration(b, true) <==> a == b
  {
    ClockRoundTrip(a, true);
    ClockRoundTrip(b, true);
  }

  lemma DivModUnique(h: int, m: int, h': int, m': int)
    requires 0 <= m < 60 && 0 <= m' < 60
    requires 3600 * h + 60 * m == 3600 * h' + 60 * m'
    ensures h == h' && m == m'
  {
    assert 60 * (h - h') == m' - m;
  }

  /** Without seconds, two totals render alike exactly when they agree to the minute. */
  lemma FormatMinutesInjective(a: int, b: int)
    ensures FormatDuration(a, false) == FormatDuration(b, false) <==> a - a % 60 == b - b % 60
  {
    ClockRoundTrip(a, false);
    ClockRoundTrip(b, false);
    if a - a % 60 == b - b % 60 {
      var ha, ma, sa := ClockArith(a);
      var hb, mb, sb := ClockArith(b);
      DivModUnique(ha, ma, hb, mb);
    }
  }

  lemma FormatExamples()
    ensures FormatDuration(0, true) == "00:00:00"
    ensures FormatDuration(3661, true) == "01:01:01"
    ensures FormatDuration(3661, false) == "01:01"
    ensures FormatDuration(2700, true) == "00:45:00" && FormatDuration(2700, false) == "00:45"
  {
    assert Pad2(0) == "00" && Pad2(1) == "01";
    assert Pad2(45) == "45" by { assert Digits(45) == Digits(4) + "5"; }
    ClockTextSeconds(0, 0, 0, 0);
    ClockTextSeconds(3661, 1, 1, 1);
    ClockTextMinutes(3661, 1, 1);
    ClockTextSeconds(2700, 0, 45, 0);
    ClockTextMinutes(2700, 0, 45);
  }

  /** `":MM"` or `":SS"`: a colon and a two-digit field. */
  function Field(n: int): string { ":" + Pad2(n) }

  lemma FieldOrder(x: int, y: int)
    requires 0 <= x < 100 && 0 <= y < 100
    ensures |Field(x)| == |Field(y)| == 3
    ensures LexLess(Field(x), Field(y)) <==> x < y
    ensures Field(x) == Field(y) <==> x == y
  {
    Pad2Order(x, y);
    assert Field(x)[1..] == Pad2(x) && Field(y)[1..] == Pad2(y);
  }

  /** Two clock readings in range compare as strings like their (h, m, s) triples. */
  lemma FieldsOrder(h: int, m: int, s: int, h': int, m': int, s': int)
    requires 0 <= h < 100 && 0 <= m < 60 && 0 <= s < 60
    requires 0 <= h' < 100 && 0 <= m' < 60 && 0 <= s' < 60
    ensures LexLess(Pad2(h) + (Field(m) + Field(s)), Pad2(h') + (Field(m') + Field(s')))
            <==> h < h' || (h == h' && (m < m' || (m == m' && s < s')))
    ensures LexLess(Pad2(h) + Field(m), Pad2(h') + Field(m'))
            <==> h < h' || (h == h' && m < m')
  {
    Pad2Order(h, h');
    FieldOrder(m, m');
    FieldOrder(s, s');
    LexLessConcat(Pad2(h), Field(m) + Field(s), Pad2(h'), Field(m') + Field(s'));
    LexLessConcat(Field(m), Field(s), Field(m'), Field(s'));
    LexLessConcat(Pad2(h), Field(m), Pad2(h'), Field(m'));
  }

  /** Seconds in range compare like their (h, m, s) decompositions. */
  lemma ClockCompare(h: int, m: int, s: int, h': int, m': int, s': int)
    requires 0 <= m < 60 && 0 <= s < 60 && 0 <= m' < 60 && 0 <= s' < 60
    ensures 3600 * h + 60 * m + s < 3600 * h' + 60 * m' + s'
            <==> h < h' || (h == h' && (m < m' || (m == m' && s < s')))
    ensures 3600 * h + 60 * m < 3600 * h' + 60 * m' <==> h < h' || (h == h' && m < m')
  {
  }

  /** The rendered total as its hours field followed by its `:MM` and `:SS` parts. */
  lemma FormatParts(seconds: int) returns (h: int, m: int, sec: int)
    ensures 0 <= m < 60 && 0 <= sec < 60 && 3600 * h + 60 * m + sec == seconds
    ensures FormatDuration(seconds, true) == Pad2(h) + (Field(m) + Field(sec))
    ensures FormatDuration(seconds, false) == Pad2(h) + Field(m)
    ensures seconds - seconds % 60 == 3600 * h + 60 * m
  {
    h, m, sec := ClockArith(seconds);
    ClockTextSeconds(seconds, h, m, sec);
    ClockTextMinutes(seconds, h, m);
    Regroup(Pad2(h), Pad2(m), Pad2(sec));
  }

  lemma Regroup(hh: string, mm: string, ss: string)
    ensures hh + ":" + mm + ":" + ss == hh + ((":" + mm) + (":" + ss))
    ensures hh + ":" + mm == hh + (":" + mm)
  {
  }

  /** Below 100 hours the rendered totals sort as strings like the totals they show
      (to the second, or to the minute when seconds are hidden). */
  lemma FormatOrdered(a: int, b: int, showSeconds: bool)
    requires 0 <= a < 100 * 3600 && 0 <= b < 100 * 3600
    ensures LexLess(FormatDuration(a, showSeconds), FormatDuration(b, showSeconds))
            <==> MinuteOrSecond(a, showSeconds) < MinuteOrSecond(b, showSeconds)
  {
    if showSeconds {
      SecondsOrdered(a, b);
    } else {
      MinutesOrdered(a, b);
    }
  }

  lemma SecondsOrdered(a: int, b: int)
    requires 0 <= a < 100 * 3600 && 0 <= b < 100 * 3600
    ensures LexLess(FormatDuration(a, true), FormatDuration(b, true)) <==> a < b
  {
    var h, m, s := FormatParts(a);
    var h', m', s' := FormatParts(b);
    FieldsOrder(h, m, s, h', m', s');
    ClockCompare(h, m, s, h', m', s');
  }

  lemma MinutesOrdered(a: int, b: int)
    requires 0 <= a < 100 * 3600 && 0 <= b < 100 * 3600
    ensures LexLess(FormatDuration(a, false), FormatDuration(b, false))
            <==> a - a % 60 < b - b % 60
  {
    var h, m, s := FormatParts(a);
    var h', m', s' := FormatParts(b);
    FieldsOrder(h, m, 0, h', m', 0);
    ClockCompare(h, m, 0, h', m', 0);
  }

  // The inputs are parameters pinned by `requires`, not literals in the statement,
  // so that the verifier does not unfold the rendering on constants over and over.
  /** At 100 hours the hours field grows a digit and string order no longer follows
      the totals: one second more sorts first. */
  lemma OrderBreaksAtHundredHours(a: int, b: int)
    requires a == 100 * 3600 && b == a - 1
    ensures FormatDuration(a, true) == "100:00:00"
    ensures FormatDuration(b, true) == "99:59:59"
    ensures LexLess(FormatDuration(a, true), FormatDuration(b, true))
  {
    Pad2Examples();
    ClockTextSeconds(a, 100, 0, 0);
    ClockTextSeconds(b, 99, 59, 59);
    assert "100" + ":" + "00" + ":" + "00" == "100:00:00";
    assert "99" + ":" + "59" + ":" + "59" == "99:59:59";
    assert LexLess("100:00:00", "99:59:59");
  }

  /** `calculate_total`: sums the spans of `tasks` and renders the sum. */
  method CalculateTotal(tasks: seq<Task>, showSeconds: bool, now: int) returns (r: string)
    ensures r == FormatDuration(TotalSeconds(tasks, now), showSeconds)
  {
    var total := 0;
    for i := 0 to |tasks|
      invariant total == TotalSeconds(tasks[..i], now)
    {
      var task := tasks[i];
      var end := if task.end.Some? then task.end.value else now;
      total := total + (end - task.start);
      assert tasks[..i + 1][..i] == tasks[..i];
    }
    assert tasks[..|tasks|] == tasks;
    var hours := total / 3600;
    var minutes := (total % 3600) / 60;
    var secondsField := if showSeconds then ":" + Pad2(total % 60) else "";
    r := Pad2(hours) + ":" + Pad2(minutes) + secondsField;
  }

  // ---------------------------------------------------------------------------
  // Display tag

  const EmptyTag := "empty"

  /** `sub` occurs in `s` starting at index `i`. */
  predicate OccursAt(s: string, sub: string, i: int)
  {
    0 <= i && i + |sub| <= |s| && s[i..i + |sub|] == sub
  }

  /** Python's `sub in s` on strings; the empty string occurs in every string. */
  function Contains(s: string, sub: string): (r: bool)
    ensures r <==> exists i :: OccursAt(s, sub, i)
  {
    if |sub| > |s| then false
    else if s[..|sub|] == sub then
      assert OccursAt(s, sub, 0);
      true
    else
      var r := Contains(s[1..], sub);
      assert forall i :: OccursAt(s[1..], sub, i) ==> OccursAt(s, sub, i + 1) by {
        forall i | OccursAt(s[1..], sub, i) ensures OccursAt(s, sub, i + 1) {
          assert s[1..][i..i + |sub|] == s[i + 1..i + 1 + |sub|];
        }
      }
      assert forall i :: OccursAt(s, sub, i) ==> i > 0 && OccursAt(s[1..], sub, i - 1) by {
        forall i | OccursAt(s, sub, i) ensures i > 0 && OccursAt(s[1..], sub, i - 1) {
          assert s[1..][i - 1..i - 1 + |sub|] == s[i..i + |sub|];
        }
      }
      r
  }

  /** For a one-character delimiter, containment is membership. */
  lemma ContainsChar(s: string, c: char)
    ensures Contains(s, [c]) <==> c in s
  {
    if c in s {
      var i :| 0 <= i < |s| && s[i] == c;
      assert s[i..i + 1] == [c];
      assert OccursAt(s, [c], i);
    }
    if Contains(s, [c]) {
      var i :| OccursAt(s, [c], i);
      assert s[i] == s[i..i + 1][0];
    }
  }

  /** `i` is the position of the first tag containing the delimiter. */
  predicate IsFirstMatch(tags: seq<string>, delimiter: string, i: int)
  {
    && 0 <= i < |tags|
    && Contains(tags[i], delimiter)
    && forall j :: 0 <= j < i ==> !Contains(tags[j], delimiter)
  }

  predicate NoMatch(tags: seq<string>, delimiter: string)
  {
    forall j :: 0 <= j < |tags| ==> !Contains(tags[j], delimiter)
  }

  /** The position of the first tag, in list order, that contains the delimiter. */
  function FirstMatch(tags: seq<string>, delimiter: string): (r: Option<nat>)
    ensures r.Some? ==> IsFirstMatch(tags, delimiter, r.value)
    ensures r.None? <==> NoMatch(tags, delimiter)
  {
    if tags == [] then None
    else if Contains(tags[0], delimiter) then Some(0)
    else match FirstMatch(tags[1..], delimiter)
      case None => None
      case Some(k) => Some(k + 1)
  }

  /** Python's `xs[i]` position for a list of length `n`: negative indices count from
      the end; anything outside `-n..n-1` has no position. */
  function PyIndex(n: nat, i: int): (r: Option<nat>)
    ensures r.Some? <==> -(n as int) <= i < n
    ensures r.Some? ==> r.value < n && r.value as int == (if i < 0 then n + i else i)
  {
    if 0 <= i < n then Some(i)
    else if -(n as int) <= i < 0 then Some(n + i)
    else None
  }

  /** `get_display_tag`: "empty" for a missing or empty list, else the first tag that
      contains the delimiter, else the tag at the fallback index (Python indexing). */
  function DisplayTag(tags: Option<seq<string>>, cfg: Config): (r: Result<string>)
    ensures tags.None? || tags.value == [] ==> r == Ok(EmptyTag)
    ensures tags.Some? ==>
      forall i :: IsFirstMatch(tags.value, cfg.tagCharacter, i) ==> r == Ok(tags.value[i])
    ensures tags.Some? && tags.value != [] && NoMatch(tags.value, cfg.tagCharacter) ==>
      var n, k := |tags.value|, cfg.fallbackTagIndex;
      && (0 <= k < n ==> r == Ok(tags.value[k]))
      && (-n <= k < 0 ==> r == Ok(tags.value[n + k]))
    ensures r.Err? <==>
      && tags.Some? && tags.value != [] && NoMatch(tags.value, cfg.tagCharacter)
      && !(-|tags.value| <= cfg.fallbackTagIndex < |tags.value|)
    ensures r.Err? ==> r.error == FallbackIndexOutOfRange(cfg.fallbackTagIndex, |tags.value|)
  {
    if tags.None? || tags.value == [] then Ok(EmptyTag)
    else
      var ts := tags.value;
      match FirstMatch(ts, cfg.tagCharacter)
      case Some(i) => Ok(ts[i])
      case None =>
        match PyIndex(|ts|, cfg.fallbackTagIndex)
        case Some(k) => Ok(ts[k])
        case None => Err(FallbackIndexOutOfRange(cfg.fallbackTagIndex, |ts|))
  }

  lemma DisplayTagExamples()
    ensures DisplayTag(Some(["proj-sub", "misc"]), DefaultConfig) == Ok("proj-sub")
    ensures DisplayTag(Some(["misc", "other"]), DefaultConfig) == Ok("other")
    ensures DisplayTag(None, DefaultConfig) == Ok(EmptyTag)
  {
    ContainsChar("proj-sub", '-');
    assert "proj-sub"[4] == '-';
    assert IsFirstMatch(["proj-sub", "misc"], "-", 0);
    ContainsChar("misc", '-');
    ContainsChar("other", '-');
    assert NoMatch(["misc", "other"], "-");
  }

  /** The loop of `get_display_tag`, returning at the first tag with the delimiter. */
  method GetDisplayTag(tags: Option<seq<string>>, cfg: Config) returns (r: Result<string>)
    ensures r == DisplayTag(tags, cfg)
  {
    if tags.None? || tags.value == [] {
      return Ok(EmptyTag);
    }
    var ts := tags.value;
    for i := 0 to |ts|
      invariant forall j :: 0 <= j < i ==> !Contains(ts[j], cfg.tagCharacter)
    {
      if Contains(ts[i], cfg.tagCharacter) {
        assert IsFirstMatch(ts, cfg.tagCharacter, i);
        return Ok(ts[i]);
      }
    }
    var index := cfg.fallbackTagIndex;
    if 0 <= index < |ts| {
      r := Ok(ts[index]);
    } else if -|ts| <= index < 0 {
      r := Ok(ts[|ts| + index]);
    } else {
      r := Err(FallbackIndexOutOfRange(index, |ts|));
    }
  }

  // ---------------------------------------------------------------------------
  // Idle classification and status

  /** `config["idle_threshold"] or 10`, in seconds. */
  function IdleThresholdSeconds(minutes: int): int
  {
    60 * (if minutes == 0 then 10 else minutes)
  }

  /** `is_idle`: an interval that has ended is idle once more than the threshold has
      passed since its end; an open interval is never idle. */
  function IsIdle(task: Task, now: int, thresholdMinutes: int): (r: bool)
    ensures task.end.None? ==> !r
    ensures task.end.Some? ==> (r <==> now - task.end.value > IdleThresholdSeconds(thresholdMinutes))
  {
    task.end.Some? && now - task.end.value > IdleThresholdSeconds(thresholdMinutes)
  }

  /** Exactly at the threshold an interval is not idle yet; one second later it is, and
      it stays idle as time goes on. */
  lemma IdleBoundary(task: Task, now: int, later: int, thresholdMinutes: int)
    requires task.end.Some?
    ensures !IsIdle(task, task.end.value + IdleThresholdSeconds(thresholdMinutes), thresholdMinutes)
    ensures IsIdle(task, task.end.value + IdleThresholdSeconds(thresholdMinutes) + 1, thresholdMinutes)
    ensures IsIdle(task, now, thresholdMinutes) && now <= later ==> IsIdle(task, later, thresholdMinutes)
  {
  }

  lemma IdleExamples(task: Task, now: int)
    requires task.end == Some(now - 11 * 60)
    ensures IsIdle(task, now, 10)
    ensures !IsIdle(task.(end := Some(now - 9 * 60)), now, 10)
    ensures !IsIdle(task.(end := Some(now - 10 * 60)), now, 10)
    ensures IsIdle(task, now, 0) && !IsIdle(task, now, 11)
    ensures !IsIdle(task.(end := Some(now - 9 * 60)), now, 0)
  {
  }

  /** The state expression of `to_waybar` for the current interval. */
  function StatusOf(current: Task, now: int, cfg: Config): (r: Status)
    ensures r != Stopped
    ensures r == Active <==> current.end.None?
    ensures r == Idle <==> current.end.Some? && IsIdle(current, now, cfg.idleThreshold)
    ensures r == Paused <==> current.end.Some? && !IsIdle(current, now, cfg.idleThreshold)
  {
    if current.end.None? then Active
    else if IsIdle(current, now, cfg.idleThreshold) then Idle
    else Paused
  }

  // ---------------------------------------------------------------------------
  // Grouping by task

  /** `t.get("tags", [])`. */
  function TagsOf(t: Task): seq<string>
  {
    if t.tags.Some? then t.tags.value else []
  }

  /** The intervals of `all` whose tag list equals `tags`, in their original order. */
  function TaskGroup(all: seq<Task>, tags: seq<string>): (r: seq<Task>)
    ensures |r| <= |all|
    ensures forall t :: t in r ==> t in all && TagsOf(t) == tags
    ensures forall t :: t in all && TagsOf(t) == tags ==> t in r
  {
    if all == [] then []
    else
      var init, last := all[..|all| - 1], all[|all| - 1];
      assert all == init + [last];
      var rest := TaskGroup(init, tags);
      if TagsOf(last) == tags then rest + [last] else rest
  }

  /** Every interval occurs in the group of its own tags as often as in the day, and in
      no other group: the groups partition the day. */
  lemma {:induction false} TaskGroupCount(all: seq<Task>, tags: seq<string>, t: Task)
    ensures multiset(TaskGroup(all, tags))[t] == if TagsOf(t) == tags then multiset(all)[t] else 0
  {
    if all != [] {
      var init, last := all[..|all| - 1], all[|all| - 1];
      assert all == init + [last];
      TaskGroupCount(init, tags, t);
    }
  }

  /** `sub` is `s` with some elements removed, the rest kept in order. */
  predicate IsSubsequence(sub: seq<Task>, s: seq<Task>)
  {
    if sub == [] then true
    else if s == [] then false
    else if sub[|sub| - 1] == s[|s| - 1] then IsSubsequence(sub[..|sub| - 1], s[..|s| - 1])
    else IsSubsequence(sub, s[..|s| - 1])
  }

  lemma {:induction false} TaskGroupOrdered(all: seq<Task>, tags: seq<string>)
    ensures IsSubsequence(TaskGroup(all, tags), all)
  {
    if all != [] {
      var init, last := all[..|all| - 1], all[|all| - 1];
      TaskGroupOrdered(init, tags);
      var rest := TaskGroup(init, tags);
      if TagsOf(last) == tags {
        assert (rest + [last])[..|rest|] == rest;
      } else {
        SubsequenceOfInit(rest, init, last);
      }
    }
  }

  lemma {:induction false} SubsequenceOfInit(sub: seq<Task>, s: seq<Task>, x: Task)
    requires IsSubsequence(sub, s)
    ensures IsSubsequence(sub, s + [x])
    decreases |s|, 1
  {
    if sub != [] {
      var s' := s + [x];
      assert s'[..|s'| - 1] == s;
      if sub[|sub| - 1] == x {
        SubsequenceDropLast(sub, s);
      }
    }
  }

  lemma {:induction false} SubsequenceDropLast(sub: seq<Task>, s: seq<Task>)
    requires sub != [] && IsSubsequence(sub, s)
    ensures IsSubsequence(sub[..|sub| - 1], s)
    decreases |s|, 0
  {
    var init := sub[..|sub| - 1];
    if init != [] {
      assert s != [];
      assert s[..|s| - 1] + [s[|s| - 1]] == s;
      if sub[|sub| - 1] != s[|s| - 1] {
        SubsequenceDropLast(sub, s[..|s| - 1]);
      }
      SubsequenceOfInit(init, s[..|s| - 1], s[|s| - 1]);
    }
  }

  /** The group of a task's own tags is never empty when it is among the day's intervals. */
  lemma TaskGroupNonEmpty(all: seq<Task>, current: Task)
    requires current in all
    ensures current in TaskGroup(all, TagsOf(current))
  {
  }

  /** With well-formed intervals, a group's total lies between 0 and the day's total. */
  lemma {:induction false} GroupTotalAtMostDay(all: seq<Task>, tags: seq<string>, now: int)
    requires forall t :: t in all ==> WellFormed(t, now)
    ensures 0 <= TotalSeconds(TaskGroup(all, tags), now) <= TotalSeconds(all, now)
  {
    if all != [] {
      var init, last := all[..|all| - 1], all[|all| - 1];
      assert all == init + [last];
      assert forall t :: t in init ==> t in all;
      assert WellFormed(last, now) by { assert last in all; }
      GroupTotalAtMostDay(init, tags, now);
      var rest := TaskGroup(init, tags);
      assert TotalSeconds(all, now) == TotalSeconds(init, now) + Span(last, now);
      if TagsOf(last) == tags {
        assert TaskGroup(all, tags) == rest + [last];
        assert (rest + [last])[..|rest|] == rest;
        assert TotalSeconds(TaskGroup(all, tags), now) == TotalSeconds(rest, now) + Span(last, now);
      } else {
        assert TaskGroup(all, tags) == rest;
      }
    }
  }

  // ---------------------------------------------------------------------------
  // The status record

  /** `to_waybar`: the status record for the current interval and today's list. */
  function Project(current: Option<Task>, all: Option<seq<Task>>, cfg: Config, now: int): (r: Result<Waybar>)
    ensures current.None? || all.None? ==> r == Ok(NoTracking)
    ensures r == Ok(NoTracking) <==>
      current.None? || all.None? || TaskGroup(all.value, TagsOf(current.value)) == []
    ensures current.Some? && all.Some? && current.value in all.value ==> r != Ok(NoTracking)
    ensures r.Ok? && r.value.status == Stopped ==> r.value == NoTracking
    ensures r.Ok? && r.value.status != Stopped ==>
      current.Some? && all.Some? && r.value.status == StatusOf(current.value, now, cfg)
    ensures r.Err? <==>
      && current.Some? && all.Some? && TaskGroup(all.value, TagsOf(current.value)) != []
      && DisplayTag(Some(TagsOf(current.value)), cfg).Err?
    ensures r.Err? ==> r.error == DisplayTag(Some(TagsOf(current.value)), cfg).error
    ensures r.Ok? && r.value.status != Stopped ==>
      r.value.text == DisplayTag(Some(TagsOf(current.value)), cfg).value + " "
        + FormatDuration(TotalSeconds(TaskGroup(all.value, TagsOf(current.value)), now), cfg.showSeconds)
        + "/" + FormatDuration(TotalSeconds(all.value, now), false)
  {
    if current.None? || all.None? then Ok(NoTracking)
    else
      var tags := TagsOf(current.value);
      var task := TaskGroup(all.value, tags);
      if task == [] then Ok(NoTracking)
      else
        var total := FormatDuration(TotalSeconds(task, now), cfg.showSeconds);
        var dayTotal := FormatDuration(TotalSeconds(all.value, now), false);
        var status := StatusOf(current.value, now, cfg);
        match DisplayTag(Some(tags), cfg)
        case Err(e) => Err(e)
        case Ok(tag) => Ok(Waybar(status, tag + " " + total + "/" + dayTotal))
  }

  /** The loop of `to_waybar` that collects the current task's intervals. */
  method ToWaybar(current: Option<Task>, all: Option<seq<Task>>, cfg: Config, now: int) returns (r: Result<Waybar>)
    ensures r == Project(current, all, cfg, now)
  {
    if current.None? || all.None? {
      return Ok(NoTracking);
    }
    var tags := TagsOf(current.value);
    var allTasks := all.value;
    var task: seq<Task> := [];
    for i := 0 to |allTasks|
      invariant task == TaskGroup(allTasks[..i], tags)
    {
      assert allTasks[..i + 1][..i] == allTasks[..i];
      if TagsOf(allTasks[i]) == tags {
        task := task + [allTasks[i]];
      }
    }
    assert allTasks[..|allTasks|] == allTasks;
    if task == [] {
      return Ok(NoTracking);
    }
    var total := CalculateTotal(task, cfg.showSeconds, now);
    var dayTotal := CalculateTotal(allTasks, false, now);
    var status :=
      if current.value.end.None? then Active
      else if IsIdle(current.value, now, cfg.idleThreshold) then Idle
      else Paused;
    var tag := GetDisplayTag(Some(tags), cfg);
    if tag.Err? {
      return Err(tag.error);
    }
    r := Ok(Waybar(status, tag.value + " " + total + "/" + dayTotal));
  }

  // The inputs are parameters pinned by `requires`, not literals in the statement,
  // so that the verifier does not unfold the rendering on constants over and over.
  /** Two `["a"]` intervals, 30 minutes closed and 15 minutes still running: the
      widget shows the running interval's tag with 45 minutes for its group and for the day. */
  lemma ProjectExample(first: Task, second: Task)
    requires first == Task(1, 0, Some(1800), Some(["a"]))
    requires second == Task(2, 1800, None, Some(["a"]))
    ensures Project(Some(second), Some([first, second]), DefaultConfig, 2700)
            == Ok(Waybar(Active, "a 00:45:00/00:45"))
  {
    assert Project(Some(second), Some([first, second]), DefaultConfig, 2700)
           == Ok(Waybar(Active, "a" + " " + FormatDuration(2700, true) + "/" + FormatDuration(2700, false))) by {
      ExampleParts(first, second);
    }
    FormatExamples();
    ExampleText("a", FormatDuration(2700, true), FormatDuration(2700, false));
  }

  /** Joins the example's parts; pinned parameters as above. */
  lemma ExampleText(tag: string, total: string, dayTotal: string)
    requires tag == "a" && total == "00:45:00" && dayTotal == "00:45"
    ensures tag + " " + total + "/" + dayTotal == "a 00:45:00/00:45"
  {
  }

  /** The grouping, totals, status and tag of the example; pinned parameters as above. */
  lemma ExampleParts(first: Task, second: Task)
    requires first == Task(1, 0, Some(1800), Some(["a"]))
    requires second == Task(2, 1800, None, Some(["a"]))
    ensures TagsOf(second) == ["a"] && StatusOf(second, 2700, DefaultConfig) == Active
    ensures TaskGroup([first, second], ["a"]) == [first, second]
    ensures TotalSeconds([first, second], 2700) == 2700
    ensures DisplayTag(Some(["a"]), DefaultConfig) == Ok("a")
  {
    var all := [first, second];
    assert all[..1] == [first] && all[..1][..0] == [];
    assert TaskGroup(all[..1], ["a"]) == [first];
    assert TotalSeconds(all[..1], 2700) == 1800;
    ContainsChar("a", '-');
  }

  /** The widget is hidden (empty text) exactly when the state is STOPPED. */
  lemma StoppedIffHidden(current: Option<Task>, all: Option<seq<Task>>, cfg: Config, now: int)
    requires Project(current, all, cfg, now).Ok?
    ensures var w := Project(current, all, cfg, now).value;
      w.status == Stopped <==> w.text == ""
  {
  }

  /** For the snapshot the program actually builds (the last interval of a non-empty
      export as the current one), the state is never STOPPED: the defensive
      empty-group branch cannot be taken. */
  lemma ExportNeverStopped(all: seq<Task>, cfg: Config, now: int)
    requires all != []
    ensures var r := Project(Some(all[|all| - 1]), Some(all), cfg, now);
      r.Ok? ==> r.value.status == StatusOf(all[|all| - 1], now, cfg)
  {
    TaskGroupNonEmpty(all, all[|all| - 1]);
  }

  /** Splits `s` at the last occurrence of `c`. */
  function SplitLast(s: string, c: char): (r: Option<(string, string)>)
    ensures r.None? <==> c !in s
    ensures r.Some? ==> s == r.value.0 + [c] + r.value.1 && c !in r.value.1
  {
    if s == [] then None
    else if s[|s| - 1] == c then
      assert s == s[..|s| - 1] + [c] + [];
      Some((s[..|s| - 1], []))
    else
      match SplitLast(s[..|s| - 1], c)
      case None =>
        assert s == s[..|s| - 1] + [s[|s| - 1]];
        None
      case Some((front, back)) =>
        assert s == s[..|s| - 1] + [s[|s| - 1]];
        Some((front, back + [s[|s| - 1]]))
  }

  lemma {:induction false} SplitLastOf(x: string, c: char, y: string)
    requires c !in y
    ensures SplitLast(x + [c] + y, c) == Some((x, y))
    decreases |y|
  {
    var s := x + [c] + y;
    if y == [] {
      assert s[..|s| - 1] == x;
    } else {
      var y' := y[..|y| - 1];
      assert s[..|s| - 1] == x + [c] + y';
      SplitLastOf(x, c, y');
      assert y' + [y[|y| - 1]] == y;
    }
  }

  /** Reads a display text `"{tag} {total}/{day_total}"` back into the tag and the two
      totals in seconds. */
  function ReadStatusText(text: string, showSeconds: bool): Option<(string, int, int)>
  {
    match SplitLast(text, '/')
    case None => None
    case Some((front, day)) =>
      match SplitLast(front, ' ')
      case None => None
      case Some((tag, group)) =>
        match (ReadClock(group, showSeconds), ReadClock(day, false))
        case (Some(g), Some(d)) => Some((tag, g, d))
        case _ => None
  }

  lemma ReadStatusTextParts(tag: string, total: string, dayTotal: string, g: int, d: int, showSeconds: bool)
    requires ' ' !in total
    requires '/' !in dayTotal
    requires ReadClock(total, showSeconds) == Some(g)
    requires ReadClock(dayTotal, false) == Some(d)
    ensures ReadStatusText(tag + " " + total + "/" + dayTotal, showSeconds) == Some((tag, g, d))
  {
    var front := tag + [' '] + total;
    assert tag + " " + total + "/" + dayTotal == front + ['/'] + dayTotal;
    SplitLastOf(front, '/', dayTotal);
    SplitLastOf(tag, ' ', total);
  }

  /** A text built from a tag and two rendered totals reads back into the tag and
      the totals, even when the tag itself contains spaces or slashes. */
  lemma ReadStatusTextOf(tag: string, group: int, day: int, showSeconds: bool)
    ensures ReadStatusText(tag + " " + FormatDuration(group, showSeconds) + "/" + FormatDuration(day, false), showSeconds)
      == Some((tag, MinuteOrSecond(group, showSeconds), MinuteOrSecond(day, false)))
  {
    var total, dayTotal := FormatDuration(group, showSeconds), FormatDuration(day, false);
    var g, d := MinuteOrSecond(group, showSeconds), MinuteOrSecond(day, false);
    assert ' ' !in total && '/' !in dayTotal by {
      ClockChars(group, showSeconds);
      ClockChars(day, false);
    }
    assert ReadClock(total, showSeconds) == Some(g) && ReadClock(dayTotal, false) == Some(d) by {
      ClockRoundTrip(group, showSeconds);
      ClockRoundTrip(day, false);
    }
    ReadStatusTextParts(tag, total, dayTotal, g, d, showSeconds);
  }

  /** The display text of a non-STOPPED record carries the display tag, the group total
      (to the second when configured, else to the minute) and the day total to the
      minute, and these can be read back from it. */
  lemma StatusTextRoundTrip(current: Task, all: seq<Task>, cfg: Config, now: int)
    requires Project(Some(current), Some(all), cfg, now).Ok?
    requires Project(Some(current), Some(all), cfg, now).value.status != Stopped
    ensures ReadStatusText(Project(Some(current), Some(all), cfg, now).value.text, cfg.showSeconds)
      == Some((DisplayTag(Some(TagsOf(current)), cfg).value,
               MinuteOrSecond(TotalSeconds(TaskGroup(all, TagsOf(current)), now), cfg.showSeconds),
               MinuteOrSecond(TotalSeconds(all, now), false)))
  {
    var g := TotalSeconds(TaskGroup(all, TagsOf(current)), now);
    var d := TotalSeconds(all, now);
    var tag := DisplayTag(Some(TagsOf(current)), cfg).value;
    var text := tag + " " + FormatDuration(g, cfg.showSeconds) + "/" + FormatDuration(d, false);
    assert Project(Some(current), Some(all), cfg, now).value.text == text;
    ReadStatusTextOf(tag, g, d, cfg.showSeconds);
  }

  // ---------------------------------------------------------------------------
  // Toggle

  /** `toggle`: resume a stopped task, stop a running one. */
  function Toggle(last: Task): (c: Command)
    ensures c == Continue <==> last.end.Some?
    ensures c == Stop <==> last.end.None?
  {
    if last.end.Some? then Continue else Stop
  }

  /** A click stops tracking exactly when the widget shows ACTIVE, and resumes it when
      it shows PAUSED or IDLE. */
  lemma ToggleMatchesStatus(current: Task, all: seq<Task>, cfg: Config, now: int)
    requires Project(Some(current), Some(all), cfg, now).Ok?
    requires Project(Some(current), Some(all), cfg, now).value.status != Stopped
    ensures var s := Project(Some(current), Some(all), cfg, now).value.status;
      (Toggle(current) == Stop <==> s == Active)
      && (Toggle(current) == Continue <==> s in {Paused, Idle})
  {
  }
}
