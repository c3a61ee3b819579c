/** The reader side of the memo engine: the daily-note bullet matchers, the
    per-line memo builder and its loop, the memo count that gates a note, and
    the decoder of individual memo files.

    Every regular expression of the reader is written out by hand for the two
    templates the model covers. A JavaScript `exec` returns the FIRST match in
    backtracking order (an optional group is tried present before absent, `\s?`
    tries one character before none, `\d{1,2}` tries two digits before one), so
    each matcher tries its alternatives in that order and keeps the first that
    reaches the end. `^\s*` in front of a bullet always takes the whole run of
    leading white space, since neither bullet character is white space. */
module GetMemos {
  import opened Text
  import opened Timestamp
  import opened Memos

  // ---------------------------------------------------------------------------
  // getTaskType
  // ---------------------------------------------------------------------------

  /** `getTaskType`: the checkbox mark, or `None` for the `undefined` a failed
      `exec` hands it, which string concatenation renders as `undefined`. */
  function GetTaskType(mark: Option<string>): (t: MemoType)
    ensures t != Journal
    ensures t == TaskTodo <==> mark == Some(" ")
    ensures t == TaskDone <==> mark == Some("x") || mark == Some("X")
    ensures t.TaskOther? ==> TypeName(t) == "TASK-" + (if mark.Some? then mark.value else "undefined")
  {
    if mark == Some(" ") then TaskTodo
    else if mark == Some("x") || mark == Some("X") then TaskDone
    else TaskOther(if mark.Some? then mark.value else "undefined")
  }

  /** Two one-character marks give the same type only when they are equal or
      are the two spellings of done. */
  lemma GetTaskTypeSeparates(a: char, b: char)
    requires GetTaskType(Some([a])) == GetTaskType(Some([b]))
    ensures a == b || (a in "xX" && b in "xX")
  {
    if GetTaskType(Some([a])).TaskOther? {
      assert [a] == [b];
    }
  }

  // ---------------------------------------------------------------------------
  // Pieces of the bullet patterns
  // ---------------------------------------------------------------------------

  function FirstOf<T>(a: Option<T>, b: Option<T>): Option<T>
  {
    if a.Some? then a else b
  }

  /** `^\s*[-*]\s`: the index after the bullet and the one white-space
      character that must follow it. */
  function BulletEnd(line: string): (r: Option<nat>)
    ensures r.Some? ==> (2 <= r.value <= |line| && IsSpace(line[r.value - 1])
      && (line[r.value - 2] == '-' || line[r.value - 2] == '*') && AllSpace(line[..r.value - 2]))
  {
    var p := |line| - |TrimStart(line)|;
    if p + 1 < |line| && (line[p] == '-' || line[p] == '*') && IsSpace(line[p + 1]) then Some(p + 2) else None
  }

  /** `\[(.{1})\]` at `k`: a one-character checkbox; `.` excludes line terminators. */
  predicate BoxAt(line: string, k: nat)
  {
    k + 2 < |line| && line[k] == '[' && !IsLineTerminator(line[k + 1]) && line[k + 2] == ']'
  }

  predicate SpaceAt(line: string, k: nat)
  {
    k < |line| && IsSpace(line[k])
  }

  /** The hour and minute digits of a clock and the index after it. */
  datatype Clock = Clock(hour: string, minute: string, end: nat)

  /** `\d{1,2}:\d{2}` at `k`. Two hour digits are tried first; the two ways are
      exclusive, since one needs a digit where the other needs `:`. */
  function ClockAt(line: string, k: nat): (r: Option<Clock>)
    ensures r.Some? ==> (k < r.value.end <= |line|
      && line[k..r.value.end] == r.value.hour + ":" + r.value.minute
      && 1 <= |r.value.hour| <= 2 && |r.value.minute| == 2
      && AllDigits(r.value.hour) && AllDigits(r.value.minute))
  {
    if k + 4 < |line| && IsDigit(line[k]) && IsDigit(line[k + 1]) && line[k + 2] == ':'
       && IsDigit(line[k + 3]) && IsDigit(line[k + 4])
    then Some(Clock(line[k..k + 2], line[k + 3..k + 5], k + 5))
    else if k + 3 < |line| && IsDigit(line[k]) && line[k + 1] == ':' && IsDigit(line[k + 2]) && IsDigit(line[k + 3])
    then Some(Clock(line[k..k + 1], line[k + 2..k + 4], k + 4))
    else None
  }

  /** `(<time>)?` where skipping it could not succeed: the index after it. */
  function TimeOpen(line: string, k: nat): (r: nat)
    ensures k <= |line| ==> r <= |line|
  {
    if At(line, "<time>", k) then k + 6 else k
  }

  /** What must follow the clock for a match to reach the end of the line:
      `(.*)$` for the empty template; `(</time>)? (.*)$` for `{TIME} {CONTENT}`.
      Without the `m` flag `$` is the end of the input, and `.` stops at a line
      terminator. */
  predicate ClockTail(line: string, k: nat, tpl: Composition)
    requires k <= |line|
  {
    match tpl
    case NoTemplate => NoLineTerminator(line[k..])
    case TimeContent =>
      var e := if At(line, "</time>", k) then k + 7 else k;
      e < |line| && line[e] == ' ' && NoLineTerminator(line[e + 1..])
  }

  // ---------------------------------------------------------------------------
  // lineContainsTime and the hour/minute extractors
  // ---------------------------------------------------------------------------

  /** `lineContainsTime`: the bullet, an optional checkbox followed by white
      space, an optional `<time>`, a clock and the tail. Each optional part is
      present exactly when skipping it could not lead to a match. */
  predicate LineContainsTime(line: string, tpl: Composition)
  {
    match BulletEnd(line)
    case None => false
    case Some(p) =>
      var q := if BoxAt(line, p) && SpaceAt(line, p + 3) then p + 4 else p;
      match ClockAt(line, TimeOpen(line, q))
      case None => false
      case Some(c) => ClockTail(line, c.end, tpl)
  }

  /** The pattern of `extractHourFromBulletLine` and `extractMinFromBulletLine`:
      the same shape, except that the white space after the checkbox is
      optional. The result holds capture groups 4 (hour) and 5 (minute). */
  function ClockMatch(line: string, tpl: Composition): (r: Option<Clock>)
    ensures r.Some? ==> r.value.end <= |line|
  {
    match BulletEnd(line)
    case None => None
    case Some(p) =>
      var q := if BoxAt(line, p) then (if SpaceAt(line, p + 3) then p + 4 else p + 3) else p;
      match ClockAt(line, TimeOpen(line, q))
      case None => None
      case Some(c) => if ClockTail(line, c.end, tpl) then Some(c) else None
  }

  /** `extractHourFromBulletLine`. */
  function ExtractHour(line: string, tpl: Composition): (r: Option<string>)
    ensures r.Some? ==> 1 <= |r.value| <= 2 && AllDigits(r.value)
  {
    match ClockMatch(line, tpl)
    case Some(c) => Some(c.hour)
    case None => None
  }

  /** `extractMinFromBulletLine`. */
  function ExtractMin(line: string, tpl: Composition): (r: Option<string>)
    ensures r.Some? ==> |r.value| == 2 && AllDigits(r.value)
  {
    match ClockMatch(line, tpl)
    case Some(c) => Some(c.minute)
    case None => None
  }

  // ---------------------------------------------------------------------------
  // extractTextFromTodoLine (capture group 8)
  // ---------------------------------------------------------------------------

  /** `r` is a tail of `line` starting at or after `k` and free of line terminators. */
  predicate TailFrom(line: string, k: nat, r: string)
  {
    k + |r| <= |line| && r == line[|line| - |r|..] && NoLineTerminator(r)
  }

  /** The end of the text pattern: `\s?(.*)$` for the empty template, ` (.*)$`
      for `{TIME} {CONTENT}`; the result is group 8. */
  function TextTail(line: string, k: nat, tpl: Composition): (r: Option<string>)
    requires k <= |line|
    ensures r.Some? ==> TailFrom(line, k, r.value)
  {
    match tpl
    case NoTemplate =>
      if SpaceAt(line, k) && NoLineTerminator(line[k + 1..]) then Some(line[k + 1..])
      else if NoLineTerminator(line[k..]) then Some(line[k..])
      else None
    case TimeContent =>
      if k < |line| && line[k] == ' ' && NoLineTerminator(line[k + 1..]) then Some(line[k + 1..]) else None
  }

  /** `(<\/time>)?` then the tail. */
  function AfterClock(line: string, k: nat, tpl: Composition): (r: Option<string>)
    requires k <= |line|
    ensures r.Some? ==> TailFrom(line, k, r.value)
  {
    FirstOf(if At(line, "</time>", k) then TextTail(line, k + 7, tpl) else None, TextTail(line, k, tpl))
  }

  /** `((\d{1,2}):(\d{2}))?` then the rest. */
  function AfterOpen(line: string, k: nat, tpl: Composition): (r: Option<string>)
    requires k <= |line|
    ensures r.Some? ==> TailFrom(line, k, r.value)
  {
    match ClockAt(line, k)
    case Some(c) => FirstOf(AfterClock(line, c.end, tpl), AfterClock(line, k, tpl))
    case None => AfterClock(line, k, tpl)
  }

  /** `(<time>)?` then the rest. */
  function AfterBox(line: string, k: nat, tpl: Composition): (r: Option<string>)
    requires k <= |line|
    ensures r.Some? ==> TailFrom(line, k, r.value)
  {
    FirstOf(if At(line, "<time>", k) then AfterOpen(line, k + 6, tpl) else None, AfterOpen(line, k, tpl))
  }

  /** `extractTextFromTodoLine` (and `extractContentfromText` of the hide
      operation, which uses the same pattern): capture group 8 of the first
      match, or `None` (`undefined`). The checkbox group `(\[(.{1})\]\s?)?` is
      tried with its white space, then without, then absent. */
  function ExtractText(line: string, tpl: Composition): (r: Option<string>)
    ensures r.Some? ==> TailFrom(line, 0, r.value)
  {
    match BulletEnd(line)
    case None => None
    case Some(p) =>
      FirstOf(if BoxAt(line, p) && SpaceAt(line, p + 3) then AfterBox(line, p + 4, tpl) else None,
        FirstOf(if BoxAt(line, p) then AfterBox(line, p + 3, tpl) else None, AfterBox(line, p, tpl)))
  }

  // ---------------------------------------------------------------------------
  // The checkbox mark
  // ---------------------------------------------------------------------------

  /** The test `/^\s*[-*]\s(\[(.{1})\])\s/`: a checkbox followed by white space
      right after the bullet. */
  predicate HasTaskBox(line: string)
  {
    match BulletEnd(line)
    case None => false
    case Some(p) => BoxAt(line, p) && SpaceAt(line, p + 3)
  }

  /** `extractMemoTaskTypeFromLine`: group 2 of `^\s*[-*]\s(\[(.{1})\])\s(.*)$`. */
  function ExtractMemoTaskType(line: string): (r: Option<string>)
    ensures r.Some? ==> HasTaskBox(line) && |r.value| == 1 && r.value[0] == line[BulletEnd(line).value + 1]
  {
    match BulletEnd(line)
    case None => None
    case Some(p) =>
      if BoxAt(line, p) && SpaceAt(line, p + 3) && NoLineTerminator(line[p + 4..]) then Some([line[p + 1]]) else None
  }

  // ---------------------------------------------------------------------------
  // What lineContainsTime guarantees to the extractors
  // ---------------------------------------------------------------------------

  lemma AfterClockSucceeds(line: string, k: nat, tpl: Composition)
    requires k <= |line| && ClockTail(line, k, tpl)
    ensures AfterClock(line, k, tpl).Some?
  {
    if At(line, "</time>", k) && tpl.NoTemplate? {
      assert line[k + 7..] == line[k..][7..];
    }
  }

  /** No line terminator from the clock onwards on a line that contains a time. */
  lemma ClockTailFree(line: string, k: nat, tpl: Composition)
    requires k <= |line| && ClockTail(line, k, tpl)
    ensures NoLineTerminator(line[k..])
  {
    if tpl.TimeContent? {
      var e := if At(line, "</time>", k) then k + 7 else k;
      forall j | k <= j < |line| ensures !IsLineTerminator(line[j]) {
        if j > e {
          assert line[j] == line[e + 1..][j - e - 1];
        } else if j < e {
          assert line[j] == line[k..k + 7][j - k];
        }
      }
    }
  }

  /** On a line that contains a time, a checkbox right after the bullet is
      followed by white space, and the hour/minute match finds the clock
      `lineContainsTime` found. */
  lemma LineContainsTimeClock(line: string, tpl: Composition)
    requires LineContainsTime(line, tpl)
    ensures var p := BulletEnd(line).value; BoxAt(line, p) ==> SpaceAt(line, p + 3)
    ensures ClockMatch(line, tpl).Some?
  {
  }

  /** On a line that contains a time, the text pattern matches. */
  lemma LineContainsTimeText(line: string, tpl: Composition)
    requires LineContainsTime(line, tpl)
    ensures ExtractText(line, tpl).Some?
  {
    LineContainsTimeClock(line, tpl);
    var p := BulletEnd(line).value;
    var q := if BoxAt(line, p) then p + 4 else p;
    var r := TimeOpen(line, q);
    var c := ClockAt(line, r).value;
    AfterClockSucceeds(line, c.end, tpl);
    assert AfterOpen(line, r, tpl).Some?;
    if r == q + 6 {
      assert At(line, "<time>", q);
    }
    assert AfterBox(line, q, tpl).Some?;
    if BoxAt(line, p) {
      assert SpaceAt(line, p + 3);
    }
  }

  /** Two stretches free of line terminators make one. */
  lemma FreeJoin(line: string, a: nat, b: nat)
    requires a <= b <= |line| && NoLineTerminator(line[a..b]) && NoLineTerminator(line[b..])
    ensures NoLineTerminator(line[a..])
  {
    forall i | 0 <= i < |line| - a ensures !IsLineTerminator(line[a..][i]) {
      if a + i < b {
        assert line[a..][i] == line[a..b][i];
      } else {
        assert line[a..][i] == line[b..][a + i - b];
      }
    }
  }

  /** A clock holds no line terminator. */
  lemma ClockFree(line: string, k: nat)
    requires ClockAt(line, k).Some?
    ensures NoLineTerminator(line[k..ClockAt(line, k).value.end])
  {
    var c := ClockAt(line, k).value;
    var t := c.hour + ":" + c.minute;
    forall i | 0 <= i < |t| ensures !IsLineTerminator(t[i]) {
      if i < |c.hour| {
        assert t[i] == c.hour[i];
      } else if i > |c.hour| {
        assert t[i] == c.minute[i - |c.hour| - 1];
      }
    }
  }

  /** From an optional `<time>` on, through the clock and its tail, there is
      no line terminator. */
  lemma FreeFromOpen(line: string, q: nat, c: Clock, tpl: Composition)
    requires q <= |line| && ClockAt(line, TimeOpen(line, q)) == Some(c) && ClockTail(line, c.end, tpl)
    ensures NoLineTerminator(line[q..])
  {
    var r := TimeOpen(line, q);
    ClockTailFree(line, c.end, tpl);
    ClockFree(line, r);
    FreeJoin(line, r, c.end);
    if r != q {
      assert line[q..r] == "<time>";
      FreeJoin(line, q, r);
    }
  }

  /** On a line that contains a time, a checkbox followed by white space always
      yields its mark. */
  lemma LineContainsTimeMark(line: string, tpl: Composition)
    requires LineContainsTime(line, tpl)
    ensures HasTaskBox(line) <==> ExtractMemoTaskType(line).Some?
  {
    if HasTaskBox(line) {
      var p := BulletEnd(line).value;
      FreeFromOpen(line, p + 4, ClockAt(line, TimeOpen(line, p + 4)).value, tpl);
    }
  }

  // ---------------------------------------------------------------------------
  // One line of a daily note
  // ---------------------------------------------------------------------------

  /** `/\^\S{6}$/`: the text ends in `^` and six non-white-space characters. */
  predicate EndsWithBlockId(raw: string)
  {
    |raw| >= 7 && raw[|raw| - 7] == '^' && forall j :: |raw| - 6 <= j < |raw| ==> !IsSpace(raw[j])
  }

  /** The moment a line stands for: the note's day with the hours and minutes
      the line's clock reads as (`parseInt` of the two captures); the
      seconds stay at the start of the day. */
  function LineStamp(line: string, tpl: Composition, fileDate: DateTime): (d: DateTime)
    requires LineContainsTime(line, tpl)
    ensures d.year == fileDate.year && d.month == fileDate.month && d.day == fileDate.day
    ensures d.hour < 100 && d.minute < 100 && d.second == 0
  {
    LineContainsTimeClock(line, tpl);
    var hourText := ExtractHour(line, tpl).value;
    var minText := ExtractMin(line, tpl).value;
    ClockFieldValue(hourText);
    ClockFieldValue(minText);
    DateTime(fileDate.year, fileDate.month, fileDate.day,
             ParseInt(hourText).value as nat, ParseInt(minText).value as nat, 0)
  }

  /** One or two decimal digits read as a number below 100. */
  lemma ClockFieldValue(ds: string)
    requires 1 <= |ds| <= 2 && AllDigits(ds)
    ensures ParseInt(ds).Some? && 0 <= ParseInt(ds).value < 100
  {
    forall i | 0 <= i < |ds|
      ensures DigitValue(ds[i], 10).Some?
    {
      assert IsDigit(ds[i]);
    }
    ParseIntOfDecimal(ds);
    RadixBound(ds);
    assert Pow10(|ds|) <= 100 by {
      assert Pow10(1) == 10;
      assert Pow10(2) == 100;
    }
  }

  /** The memo type of a line: the checkbox mark's type when a checkbox with
      white space follows the bullet, JOURNAL otherwise. */
  function LineType(line: string): MemoType
  {
    if HasTaskBox(line) then GetTaskType(ExtractMemoTaskType(line)) else Journal
  }

  /** `hasId`: the six characters of a trailing block id, else the random id. */
  function BlockIdOf(raw: string, randomId: string): string
  {
    if EndsWithBlockId(raw) then raw[|raw| - 6..] else randomId
  }

  /** The body of the loop of `getMemosFromDailyNote` for line `i`: `None` when
      the line is skipped. `fileDate` is the note's day; the loop sets the
      hours and minutes of its two moments before every use, so both carry
      the line's clock and `createdAt` equals `updatedAt`. `randomId` stands
      for the `Math.random` block id. */
  function ParseLine(line: string, i: nat, tpl: Composition, fileDate: DateTime, path: string, randomId: string): (r: Option<Memo>)
    ensures r.Some? ==> r.value.createdAt == r.value.updatedAt && r.value.content != [] && TailFrom(line, 0, r.value.content)
    ensures r.Some? ==> |line| > 0 && !Contains(line, "comment: ") && LineContainsTime(line, tpl)
    ensures r.Some? ==> ExtractText(line, tpl) == Some(r.value.content) && r.value.hasId == BlockIdOf(r.value.content, randomId)
    ensures r.Some? ==> r.value.path == path
  {
    if |line| == 0 || Contains(line, "comment: ") || !LineContainsTime(line, tpl) then None
    else
      LineContainsTimeText(line, tpl);
      var raw := ExtractText(line, tpl).value;
      if raw == "" then None
      else
        var stamp := LineStamp(line, tpl, fileDate);
        Some(Memo(DailyCompact(stamp) + NatToString(i), raw, DailyStamp(stamp), DailyStamp(stamp),
                  LineType(line), BlockIdOf(raw, randomId), path))
  }

  /** A line yields a memo exactly when it is non-empty, has no `comment: `,
      contains a time and its text is non-empty; its type is JOURNAL exactly
      when no checkbox with white space follows the bullet, and otherwise the
      type of the checkbox mark. */
  lemma ParseLineYields(line: string, i: nat, tpl: Composition, fileDate: DateTime, path: string, randomId: string)
    ensures ParseLine(line, i, tpl, fileDate, path, randomId).Some? <==>
      |line| > 0 && !Contains(line, "comment: ") && LineContainsTime(line, tpl) && ExtractText(line, tpl) != Some("")
    ensures var r := ParseLine(line, i, tpl, fileDate, path, randomId);
      r.Some? ==> ((r.value.memoType == Journal <==> !HasTaskBox(line))
        && (HasTaskBox(line) ==> r.value.memoType == GetTaskType(Some([line[BulletEnd(line).value + 1]]))))
  {
    if |line| > 0 && !Contains(line, "comment: ") && LineContainsTime(line, tpl) {
      LineContainsTimeText(line, tpl);
      LineContainsTimeMark(line, tpl);
      var r := ParseLine(line, i, tpl, fileDate, path, randomId);
      assert r.Some? ==> r.value.memoType == LineType(line);
    }
  }

  /** A trailing block id `^xxxxxx` is what `hasId` holds, and the content
      keeps it; without one, `hasId` is the random id. */
  lemma BlockIdOfParts(raw: string, randomId: string)
    ensures EndsWithBlockId(raw) ==> (var h := BlockIdOf(raw, randomId);
      |h| == 6 && raw == raw[..|raw| - 7] + "^" + h && forall j :: 0 <= j < 6 ==> !IsSpace(h[j]))
    ensures !EndsWithBlockId(raw) ==> BlockIdOf(raw, randomId) == randomId
  {
    if EndsWithBlockId(raw) {
      assert raw == raw[..|raw| - 7] + [raw[|raw| - 7]] + raw[|raw| - 6..];
    }
  }

  /** With a four-digit year and two-digit month and day, a memo id is 14
      digits of date and clock followed by the decimal line index. */
  lemma ParseLineId(line: string, i: nat, tpl: Composition, fileDate: DateTime, path: string, randomId: string)
    requires fileDate.year <= 9999 && fileDate.month < 100 && fileDate.day < 100
    requires ParseLine(line, i, tpl, fileDate, path, randomId).Some?
    ensures var id := ParseLine(line, i, tpl, fileDate, path, randomId).value.id;
      |id| > 14 && AllDigits(id[..14]) && id[14..] == NatToString(i)
  {
    var stamp := LineStamp(line, tpl, fileDate);
    FormatWidths(stamp);
    var id := DailyCompact(stamp) + NatToString(i);
    assert id[..14] == DailyCompact(stamp) && id[14..] == NatToString(i);
  }

  // ---------------------------------------------------------------------------
  // getRemainingMemos: the count that gates a note
  // ---------------------------------------------------------------------------

  /** `- ` or `* ` at `j`: where a match of the count pattern can start. */
  predicate PairAt(text: string, j: int)
  {
    0 <= j && j + 1 < |text| && (text[j] == '-' || text[j] == '*') && text[j + 1] == ' '
  }

  /** The end of the match of `(-|\*) (\[(.{1})\]\s)?((<time>)?\d{1,2}:\d{2})?`
      (the pattern of both templates) that starts at `i`: every optional part
      is taken when present. */
  function MatchEnd(text: string, i: nat): (e: nat)
    requires PairAt(text, i)
    ensures i + 2 <= e <= |text|
  {
    var k := i + 2;
    var k1 := if BoxAt(text, k) && SpaceAt(text, k + 3) then k + 4 else k;
    ClockEnd(text, k1)
  }

  /** The end of `((<time>)?\d{1,2}:\d{2})?` at `k1`. */
  function ClockEnd(text: string, k1: nat): (e: nat)
    requires k1 <= |text|
    ensures k1 <= e <= |text|
  {
    if At(text, "<time>", k1) && ClockAt(text, k1 + 6).Some? then ClockAt(text, k1 + 6).value.end
    else if ClockAt(text, k1).Some? then ClockAt(text, k1).value.end
    else k1
  }

  /** The number of matches of the global pattern from index `i` on: each
      search resumes where the previous match ended. */
  function MatchCount(text: string, i: nat): nat
    decreases |text| - i
  {
    if i >= |text| then 0
    else if PairAt(text, i) then 1 + MatchCount(text, MatchEnd(text, i))
    else MatchCount(text, i + 1)
  }

  /** `getRemainingMemos` for a note's text: the length of `text.match(re)`,
      `0` when it is `null`. */
  function RemainingMemos(text: string): nat
  {
    MatchCount(text, 0)
  }

  /** The number of `- ` and `* ` pairs from index `i` on. */
  function PairCount(text: string, i: nat): nat
    decreases |text| - i
  {
    if i >= |text| then 0 else (if PairAt(text, i) then 1 else 0) + PairCount(text, i + 1)
  }

  /** A clock holds only digits and `:`. */
  lemma ClockChars(text: string, k: nat, j: nat)
    requires ClockAt(text, k).Some? && k <= j < ClockAt(text, k).value.end
    ensures text[j] != '-' && text[j] != '*'
  {
  }

  /** No `- ` or `* ` starts inside a checkbox and the space after it. */
  lemma BoxNoPair(text: string, k: nat, j: nat)
    requires BoxAt(text, k) && SpaceAt(text, k + 3) && k <= j < k + 4
    ensures !PairAt(text, j)
  {
    assert text[k] == '[' && text[k + 2] == ']';
  }

  /** No `- ` or `* ` starts inside `<time>` or the clock after the box. */
  lemma ClockNoPair(text: string, k1: nat, j: nat)
    requires k1 <= j && k1 <= |text| && j < ClockEnd(text, k1)
    ensures !PairAt(text, j)
  {
    if At(text, "<time>", k1) && ClockAt(text, k1 + 6).Some? {
      if j >= k1 + 6 {
        ClockChars(text, k1 + 6, j);
      } else {
        assert text[j] == text[k1..k1 + 6][j - k1];
      }
    } else {
      ClockChars(text, k1, j);
    }
  }

  /** No `- ` or `* ` starts inside a match. */
  lemma NoPairInsideMatch(text: string, i: nat, j: nat)
    requires PairAt(text, i) && i < j < MatchEnd(text, i)
    ensures !PairAt(text, j)
  {
    var k := i + 2;
    var box := BoxAt(text, k) && SpaceAt(text, k + 3);
    var k1 := if box then k + 4 else k;
    if j == i + 1 {
      assert text[j] == ' ';
    } else if j < k1 {
      BoxNoPair(text, k, j);
    } else {
      ClockNoPair(text, k1, j);
    }
  }

  lemma {:induction false} PairCountSkip(text: string, a: nat, b: nat)
    requires a <= b <= |text|
    requires forall j :: a <= j < b ==> !PairAt(text, j)
    ensures PairCount(text, a) == PairCount(text, b)
    decreases b - a
  {
    if a < b {
      PairCountSkip(text, a + 1, b);
    }
  }

  /** The number of matches is the number of `- ` and `* ` pairs. */
  lemma {:induction false} MatchCountIsPairCount(text: string, i: nat)
    ensures MatchCount(text, i) == PairCount(text, i)
    decreases |text| - i
  {
    if i < |text| {
      if PairAt(text, i) {
        var e := MatchEnd(text, i);
        forall j | i + 1 <= j < e ensures !PairAt(text, j) {
          NoPairInsideMatch(text, i, j);
        }
        PairCountSkip(text, i + 1, e);
        MatchCountIsPairCount(text, e);
      } else {
        MatchCountIsPairCount(text, i + 1);
      }
    }
  }

  lemma {:induction false} PairCountZero(text: string, i: nat)
    ensures PairCount(text, i) == 0 <==> forall j :: i <= j ==> !PairAt(text, j)
    decreases |text| - i
  {
    if i < |text| {
      PairCountZero(text, i + 1);
    }
  }

  /** A note counts no memo exactly when it has no `- ` and no `* `. */
  lemma RemainingMemosZero(text: string)
    ensures RemainingMemos(text) == 0 <==> forall j :: !PairAt(text, j)
  {
    MatchCountIsPairCount(text, 0);
    PairCountZero(text, 0);
  }

  // ---------------------------------------------------------------------------
  // getMemosFromDailyNote
  // ---------------------------------------------------------------------------

  /** The memo a line yields, as a sequence of zero or one memo. */
  function Found(r: Option<Memo>): seq<Memo>
  {
    if r.Some? then [r.value] else []
  }

  /** The memos of the first `n` lines, in line order. `randomId(i)` is the
      random block id drawn for line `i`. */
  function LinesMemos(lines: seq<string>, n: nat, parse: (string, nat) -> Option<Memo>): seq<Memo>
    requires n <= |lines|
  {
    if n == 0 then []
    else LinesMemos(lines, n - 1, parse) + Found(parse(lines[n - 1], n - 1))
  }

  /** The loop body of `getMemosFromDailyNote` for line `i`, as a function
      of the line and its index. */
  function LineParser(tpl: Composition, fileDate: DateTime, path: string, randomId: nat -> string)
    : (string, nat) -> Option<Memo>
  {
    (line: string, i: nat) => ParseLine(line, i, tpl, fileDate, path, randomId(i))
  }

  /** What `getMemosFromDailyNote` appends for a note with text `text`:
      nothing when the count of the note is zero, else the memos of all of
      its lines (split at `\r?\n`). */
  function NoteMemos(text: string, tpl: Composition, fileDate: DateTime, path: string, randomId: nat -> string): seq<Memo>
  {
    if RemainingMemos(text) == 0 then []
    else LinesMemos(SplitCrLf(text), |SplitCrLf(text)|, LineParser(tpl, fileDate, path, randomId))
  }

  /** `getMemosFromDailyNote`: nothing when the count is zero, otherwise the
      `for` loop over the note's lines. */
  method DailyNoteMemos(text: string, tpl: Composition, fileDate: DateTime, path: string, randomId: nat -> string)
    returns (memos: seq<Memo>)
    ensures memos == NoteMemos(text, tpl, fileDate, path, randomId)
  {
    memos := [];
    if RemainingMemos(text) == 0 {
      return;
    }
    var lines := SplitCrLf(text);
    memos := EachLine(lines, LineParser(tpl, fileDate, path, randomId));
  }

  /** The `for` loop: each line's memo, if it yields one, pushed in order. */
  method EachLine(lines: seq<string>, parse: (string, nat) -> Option<Memo>) returns (memos: seq<Memo>)
    ensures memos == LinesMemos(lines, |lines|, parse)
  {
    memos := [];
    var i := 0;
    while i < |lines|
      invariant 0 <= i <= |lines|
      invariant memos == LinesMemos(lines, i, parse)
    {
      var m := parse(lines[i], i);
      memos := memos + Found(m);
      i := i + 1;
    }
  }

  /** The memos of a sequence of line results, in order. */
  function Somes(rs: seq<Option<Memo>>): seq<Memo>
  {
    if rs == [] then [] else Somes(rs[..|rs| - 1]) + Found(rs[|rs| - 1])
  }

  /** The positions of the results that hold a memo. */
  function SomeIndices(rs: seq<Option<Memo>>): seq<nat>
  {
    if rs == [] then [] else SomeIndices(rs[..|rs| - 1]) + if rs[|rs| - 1].Some? then [|rs| - 1] else []
  }

  /** Memo `j` is the result at position `SomeIndices(rs)[j]`, and the
      positions increase strictly. */
  lemma {:induction false} SomesFacts(rs: seq<Option<Memo>>)
    ensures var ms, ks := Somes(rs), SomeIndices(rs);
      |ks| == |ms|
      && (forall j :: 0 <= j < |ks| ==> ks[j] < |rs| && rs[ks[j]] == Some(ms[j]))
      && (forall a, b :: 0 <= a < b < |ks| ==> ks[a] < ks[b])
  {
    if rs != [] {
      var init := rs[..|rs| - 1];
      SomesFacts(init);
      assert forall k :: 0 <= k < |init| ==> rs[k] == init[k];
    }
  }

  /** The result of every line of a note. */
  function LineResults(lines: seq<string>, tpl: Composition, fileDate: DateTime, path: string,
                       randomId: nat -> string): (rs: seq<Option<Memo>>)
    ensures |rs| == |lines|
  {
    seq(|lines|, k requires 0 <= k < |lines| => ParseLine(lines[k], k, tpl, fileDate, path, randomId(k)))
  }

  lemma {:induction false} LinesMemosSomes(lines: seq<string>, n: nat, tpl: Composition, fileDate: DateTime, path: string,
                                          randomId: nat -> string)
    requires n <= |lines|
    ensures LinesMemos(lines, n, LineParser(tpl, fileDate, path, randomId))
      == Somes(LineResults(lines, tpl, fileDate, path, randomId)[..n])
  {
    if n > 0 {
      LinesMemosSomes(lines, n - 1, tpl, fileDate, path, randomId);
      var rs := LineResults(lines, tpl, fileDate, path, randomId);
      assert rs[n - 1] == LineParser(tpl, fileDate, path, randomId)(lines[n - 1], n - 1);
      SomesSnoc(rs, n);
    }
  }

  /** The memos of the first `n` results extend those of the first `n - 1`. */
  lemma SomesSnoc(rs: seq<Option<Memo>>, n: nat)
    requires 0 < n <= |rs|
    ensures Somes(rs[..n]) == Somes(rs[..n - 1]) + Found(rs[n - 1])
  {
    assert rs[..n][..n - 1] == rs[..n - 1];
  }

  /** Every memo of a note carries the note's path, equal creation and update
      times, and non-empty single-line content. */
  lemma NoteMemosShape(text: string, tpl: Composition, fileDate: DateTime, path: string, randomId: nat -> string)
    ensures forall m :: m in NoteMemos(text, tpl, fileDate, path, randomId) ==>
      m.path == path && m.createdAt == m.updatedAt && m.content != [] && NoLineTerminator(m.content)
  {
    if RemainingMemos(text) != 0 {
      var lines := SplitCrLf(text);
      var rs := LineResults(lines, tpl, fileDate, path, randomId);
      LinesMemosSomes(lines, |lines|, tpl, fileDate, path, randomId);
      assert rs[..|lines|] == rs;
      SomesFacts(rs);
      var ms, ks := Somes(rs), SomeIndices(rs);
      forall m | m in ms
        ensures m.path == path && m.createdAt == m.updatedAt && m.content != [] && NoLineTerminator(m.content)
      {
        var j :| 0 <= j < |ms| && ms[j] == m;
        var k := ks[j];
        assert rs[k] == ParseLine(lines[k], k, tpl, fileDate, path, randomId(k)) == Some(m);
      }
    }
  }

  /** The ids of one note's memos are pairwise different: they end in
      different line indices after a fixed 14-digit prefix. */
  lemma NoteIdsDistinct(text: string, tpl: Composition, fileDate: DateTime, path: string, randomId: nat -> string)
    requires fileDate.year <= 9999 && fileDate.month < 100 && fileDate.day < 100
    ensures var ms := NoteMemos(text, tpl, fileDate, path, randomId);
      forall a, b :: 0 <= a < b < |ms| ==> ms[a].id != ms[b].id
  {
    if RemainingMemos(text) != 0 {
      var lines := SplitCrLf(text);
      var rs := LineResults(lines, tpl, fileDate, path, randomId);
      LinesMemosSomes(lines, |lines|, tpl, fileDate, path, randomId);
      assert rs[..|lines|] == rs;
      SomesFacts(rs);
      var ms := Somes(rs);
      var ks := SomeIndices(rs);
      forall a, b | 0 <= a < b < |ms| ensures ms[a].id != ms[b].id {
        ParseLineId(lines[ks[a]], ks[a], tpl, fileDate, path, randomId(ks[a]));
        ParseLineId(lines[ks[b]], ks[b], tpl, fileDate, path, randomId(ks[b]));
        if ms[a].id == ms[b].id {
          NatToStringInjective(ks[a], ks[b]);
        }
      }
    }
  }

  /** A note without any `- ` or `* ` yields no memo. */
  lemma NoteMemosGate(text: string, tpl: Composition, fileDate: DateTime, path: string, randomId: nat -> string)
    requires forall j :: !PairAt(text, j)
    ensures NoteMemos(text, tpl, fileDate, path, randomId) == []
  {
    RemainingMemosZero(text);
  }

  /** The line `-<tab>10:00 x`: a bullet, a tab, a clock and the text `x`. */
  const TabLine: string := "-\t10:00 x"

  lemma TabLineBullet()
    ensures BulletEnd(TabLine) == Some(2) && !BoxAt(TabLine, 2) && !At(TabLine, "<time>", 2)
  {
    assert TabLine[0] == '-' && TabLine[1] == '\t' && TabLine[2] == '1';
    assert !IsSpace(TabLine[0]);
    TrimStartNonSpace(TabLine);
    assert TabLine[2..8][0] != "<time>"[0];
  }

  lemma TabLineClock()
    ensures ClockAt(TabLine, 2) == Some(Clock("10", "00", 7))
  {
    assert TabLine[2..4] == "10" && TabLine[5..7] == "00";
  }

  lemma TabLineMatches()
    ensures LineContainsTime(TabLine, NoTemplate)
  {
    TabLineBullet();
    TabLineClock();
    TabLineRest();
    ContainsTimeAt(TabLine, NoTemplate, 2, Clock("10", "00", 7));
  }

  lemma TabLineRest()
    ensures NoLineTerminator(TabLine[7..])
  {
    assert TabLine[7..] == " x";
  }

  /** A bullet without a checkbox at `p`, a clock right there and a tail the
      template accepts: the line contains a time. */
  lemma ContainsTimeAt(line: string, tpl: Composition, p: nat, c: Clock)
    requires BulletEnd(line) == Some(p) && !BoxAt(line, p) && !At(line, "<time>", p)
    requires ClockAt(line, p) == Some(c) && c.end <= |line| && ClockTail(line, c.end, tpl)
    ensures LineContainsTime(line, tpl)
  {
  }

  lemma TabLineTail()
    ensures AfterClock(TabLine, 7, NoTemplate) == Some("x")
  {
    assert !At(TabLine, "</time>", 7);
    assert TabLine[8..] == "x";
    assert TextTail(TabLine, 7, NoTemplate) == Some("x");
  }

  lemma TabLineText()
    ensures ExtractText(TabLine, NoTemplate) == Some("x")
  {
    TabLineBullet();
    TabLineClock();
    TabLineTail();
    assert AfterOpen(TabLine, 2, NoTemplate) == Some("x");
    assert AfterBox(TabLine, 2, NoTemplate) == Some("x");
  }

  lemma TabLineNoComment()
    ensures !Contains(TabLine, "comment: ")
  {
    assert TabLine[..9][0] != "comment: "[0];
    assert IndexOfFrom(TabLine, "comment: ", 1) == -1;
  }

  lemma TabLineNoPair()
    ensures forall j :: !PairAt(TabLine, j)
  {
    forall j | 0 <= j < |TabLine| - 1 ensures !PairAt(TabLine, j) {
      assert TabLine[1] == '\t';
    }
  }

  /** The count and the line parser disagree on a tab after the bullet: the
      line `-<tab>10:00 x` holds a memo, but a note made of it alone counts
      none, so it yields nothing. */
  lemma TabBulletSkipped(fileDate: DateTime, path: string, randomId: nat -> string)
    ensures ParseLine(TabLine, 0, NoTemplate, fileDate, path, randomId(0)).Some?
    ensures NoteMemos(TabLine, NoTemplate, fileDate, path, randomId) == []
  {
    TabLineParses(fileDate, path, randomId(0));
    TabLineNoPair();
    NoteMemosGate(TabLine, NoTemplate, fileDate, path, randomId);
  }

  lemma TabLineParses(fileDate: DateTime, path: string, id: string)
    ensures ParseLine(TabLine, 0, NoTemplate, fileDate, path, id).Some?
  {
    TabLineMatches();
    TabLineText();
    TabLineNoComment();
  }

  // ---------------------------------------------------------------------------
  // getMemosFromIndividualFiles: one memo file
  // ---------------------------------------------------------------------------

  /** `^` under the `m` flag: the start of the text or just after a line
      terminator. */
  predicate LineStartAt(text: string, i: nat)
  {
    i == 0 || (i <= |text| && IsLineTerminator(text[i - 1]))
  }

  /** `\n*` at `k`: the index after the run of newlines. */
  function NewlineRunEnd(text: string, k: nat): (e: nat)
    requires k <= |text|
    ensures k <= e <= |text| && (e < |text| ==> text[e] != '\n')
    ensures forall j :: k <= j < e ==> text[j] == '\n'
    decreases |text| - k
  {
    if k < |text| && text[k] == '\n' then NewlineRunEnd(text, k + 1) else k
  }

  datatype Span = Span(start: nat, end: nat)

  /** The first match at or after `from` of `^---[\s\S]*?---\n*` (flag `m`): an opening
      `---` at a line start, the nearest closing `---` after it, and the
      newlines that follow. */
  function FrontmatterMatch(text: string, from: nat): (r: Option<Span>)
    ensures r.Some? ==> (from <= r.value.start && r.value.start + 6 <= r.value.end <= |text|
      && LineStartAt(text, r.value.start) && At(text, "---", r.value.start))
    ensures r.Some? ==> forall i :: from <= i < r.value.start ==> !(LineStartAt(text, i) && At(text, "---", i))
    decreases |text| - from
  {
    if from + 3 > |text| then None
    else if LineStartAt(text, from) && At(text, "---", from) then
      var close := IndexOfFrom(text, "---", from + 3);
      if close >= 0 then Some(Span(from, NewlineRunEnd(text, close + 3)))
      else
        NoFenceAfter(text, from);
        FrontmatterMatch(text, from + 1)
    else FrontmatterMatch(text, from + 1)
  }

  /** An opening `---` with no `---` after it: no `---` starts a line later on,
      since the two characters after the opening are dashes. */
  lemma NoFenceAfter(text: string, from: nat)
    requires At(text, "---", from) && IndexOfFrom(text, "---", from + 3) < 0
    ensures forall i :: from < i ==> !(LineStartAt(text, i) && At(text, "---", i))
  {
    forall i | from < i ensures !(LineStartAt(text, i) && At(text, "---", i)) {
      if i < from + 3 {
        assert text[i - 1] == text[from..from + 3][i - 1 - from];
      }
    }
  }

  /** `content.replace(re, '')` for the frontmatter pattern `^---[\s\S]*?---\n*` (flag `m`). */
  function StripFrontmatter(text: string): (r: string)
    ensures |r| <= |text|
  {
    match FrontmatterMatch(text, 0)
    case Some(sp) => text[..sp.start] + text[sp.end..]
    case None => text
  }

  /** A text with no `---` at any line start keeps everything. */
  lemma {:induction false} FrontmatterAbsent(text: string, from: nat)
    requires forall i :: from <= i ==> !(LineStartAt(text, i) && At(text, "---", i))
    ensures FrontmatterMatch(text, from).None?
    decreases |text| - from
  {
    if from + 3 <= |text| {
      FrontmatterAbsent(text, from + 1);
    }
  }

  /** A run of newlines read after a prefix is the same run read alone. */
  lemma {:induction false} NewlineRunShift(pre: string, rest: string, k: nat)
    requires k <= |rest|
    ensures NewlineRunEnd(pre + rest, |pre| + k) == |pre| + NewlineRunEnd(rest, k)
    decreases |rest| - k
  {
    if k < |rest| && rest[k] == '\n' {
      assert (pre + rest)[|pre| + k] == rest[k];
      NewlineRunShift(pre, rest, k + 1);
    } else if k < |rest| {
      assert (pre + rest)[|pre| + k] == rest[k];
    }
  }

  /** A file that opens with `---`, then a block in which `---` does not
      start, then `---`, loses exactly that block, the two fences and the
      newlines that follow. */
  lemma StripFrontmatterOf(mid: string, rest: string)
    requires forall j :: 3 <= j < 3 + |mid| ==> !At("---" + mid + "---" + rest, "---", j)
    ensures StripFrontmatter("---" + mid + "---" + rest) == rest[NewlineRunEnd(rest, 0)..]
  {
    var text := "---" + mid + "---" + rest;
    var pre := "---" + mid + "---";
    assert text == pre + rest;
    assert text[..3] == "---";
    assert text[3 + |mid|..6 + |mid|] == "---";
    assert At(text, "---", 3 + |mid|);
    var close := IndexOfFrom(text, "---", 3);
    assert close != -1 && close <= 3 + |mid|;
    assert close == 3 + |mid|;
    NewlineRunShift(pre, rest, 0);
    var e := NewlineRunEnd(text, close + 3);
    assert e == |pre| + NewlineRunEnd(rest, 0);
    assert FrontmatterMatch(text, 0) == Some(Span(0, e));
    assert text[e..] == rest[NewlineRunEnd(rest, 0)..];
  }

  /** The `created` frontmatter value, read with the layout
      `YYYY-MM-DD HH:mm:ss`, or the file's creation time when it is missing,
      empty or not a valid date. */
  function CreatedDate(created: Option<string>, ctime: DateTime): DateTime
  {
    if created.Some? && created.value != "" && ParseStamp(created.value, '-').Some? then
      ParseStamp(created.value, '-').value
    else ctime
  }

  /** The memo `getMemosFromIndividualFiles` builds for one file: `created` and
      `kind` are the frontmatter's `created` and `type` values, `ctime` and
      `mtime` the file's times. */
  function DecodeIndividualFile(text: string, created: Option<string>, kind: Option<string>,
                                ctime: DateTime, mtime: DateTime, path: string): (m: Memo)
    ensures m.memoType != Journal <==> kind == Some("task")
    ensures m.memoType == TaskDone <==> kind == Some("task") && (Contains(text, "- [x]") || Contains(text, "- [X]"))
    ensures m.memoType == Journal || m.memoType == TaskTodo || m.memoType == TaskDone
    ensures m.hasId == "" && m.path == path
  {
    var d := CreatedDate(created, ctime);
    var memoType :=
      if kind == Some("task") then
        (if Contains(text, "- [x]") || Contains(text, "- [X]") then TaskDone else TaskTodo)
      else Journal;
    Memo(CompactSecond(d) + "001", Trim(StripFrontmatter(text)), Stamp(d, '/'), Stamp(mtime, '/'), memoType, "", path)
  }

  /** A `created` value in the layout is kept (it reads back from
      `createdAt`); a missing, empty or invalid one gives way to the file's
      creation time. `updatedAt` is the modification time. */
  lemma DecodeTimes(text: string, created: Option<string>, kind: Option<string>,
                    ctime: DateTime, mtime: DateTime, path: string)
    requires Valid(ctime) && Valid(mtime)
    ensures var m := DecodeIndividualFile(text, created, kind, ctime, mtime, path);
      (created.Some? && ParseStamp(created.value, '-').Some? ==>
         ParseStamp(m.createdAt, '/') == ParseStamp(created.value, '-'))
      && (created.None? || ParseStamp(created.value, '-').None? ==> ParseStamp(m.createdAt, '/') == Some(ctime))
      && ParseStamp(m.updatedAt, '/') == Some(mtime)
  {
    var d := CreatedDate(created, ctime);
    var m := DecodeIndividualFile(text, created, kind, ctime, mtime, path);
    assert m.createdAt == Stamp(d, '/') && m.updatedAt == Stamp(mtime, '/');
    if created.Some? && ParseStamp(created.value, '-').Some? {
      assert created.value != "";
      assert d == ParseStamp(created.value, '-').value;
    } else {
      assert d == ctime;
    }
    ParseStampOfStamp(d, '/');
    ParseStampOfStamp(mtime, '/');
  }

  /** The id of a file memo is its 14-digit creation time followed by `001`,
      the same time its `createdAt` shows. */
  lemma DecodeId(text: string, created: Option<string>, kind: Option<string>,
                 ctime: DateTime, mtime: DateTime, path: string)
    requires Valid(ctime)
    ensures var m := DecodeIndividualFile(text, created, kind, ctime, mtime, path);
      |m.id| == 17 && AllDigits(m.id[..14]) && m.id[14..] == "001"
      && ParseStamp(m.createdAt, '/').Some? && m.id[..14] == CompactSecond(ParseStamp(m.createdAt, '/').value)
  {
    var d := CreatedDate(created, ctime);
    var m := DecodeIndividualFile(text, created, kind, ctime, mtime, path);
    assert m.createdAt == Stamp(d, '/') && m.id == CompactSecond(d) + "001";
    FormatWidths(d);
    ParseStampOfStamp(d, '/');
    var id := CompactSecond(d) + "001";
    assert id[..14] == CompactSecond(d) && id[14..] == "001";
  }

  /** A file of the memo folder as the reader sees it: its text, the
      frontmatter's `created` and `type` values, its times, path and extension. */
  datatype MemoFile = MemoFile(text: string, created: Option<string>, kind: Option<string>,
                               ctime: DateTime, mtime: DateTime, path: string, extension: string)

  /** The memos of the markdown files among `files`, in order. */
  function FolderMemos(files: seq<MemoFile>): (ms: seq<Memo>)
    ensures |ms| <= |files|
  {
    if files == [] then []
    else
      var f := files[|files| - 1];
      FolderMemos(files[..|files| - 1])
      + if f.extension == "md" then [DecodeIndividualFile(f.text, f.created, f.kind, f.ctime, f.mtime, f.path)] else []
  }

  /** The loop of `getMemosFromIndividualFiles` over the folder's files. */
  method IndividualFilesMemos(files: seq<MemoFile>) returns (memos: seq<Memo>)
    ensures memos == FolderMemos(files)
  {
    memos := [];
    var i := 0;
    while i < |files|
      invariant 0 <= i <= |files|
      invariant memos == FolderMemos(files[..i])
    {
      var f := files[i];
      assert files[..i + 1][..i] == files[..i];
      if f.extension == "md" {
        memos := memos + [DecodeIndividualFile(f.text, f.created, f.kind, f.ctime, f.mtime, f.path)];
      }
      i := i + 1;
    }
    assert files[..|files|] == files;
  }

  /** The markdown files among `files`. */
  function MarkdownIndices(files: seq<MemoFile>): set<nat>
  {
    set k: nat | k < |files| && files[k].extension == "md"
  }

  /** There is one file memo per markdown file. */
  lemma {:induction false} FolderMemosCount(files: seq<MemoFile>)
    ensures |FolderMemos(files)| == |MarkdownIndices(files)|
  {
    if files != [] {
      var init := files[..|files| - 1];
      var n := |files| - 1;
      FolderMemosCount(init);
      MarkdownIndicesSnoc(files);
      assert |FolderMemos(files)| == |FolderMemos(init)| + if files[n].extension == "md" then 1 else 0;
    }
  }

  /** The last file adds its index when it is a markdown file. */
  lemma MarkdownIndicesSnoc(files: seq<MemoFile>)
    requires files != []
    ensures var n := |files| - 1;
      |MarkdownIndices(files)| == |MarkdownIndices(files[..n])| + if files[n].extension == "md" then 1 else 0
  {
    var n := |files| - 1;
    var init := files[..n];
    if files[n].extension == "md" {
      assert MarkdownIndices(files) == MarkdownIndices(init) + {n};
    } else {
      assert MarkdownIndices(files) == MarkdownIndices(init);
    }
  }

  /** Every file memo carries the path of a markdown file of the folder. */
  lemma {:induction false} FolderMemosPaths(files: seq<MemoFile>)
    ensures forall m :: m in FolderMemos(files) ==>
      exists k :: 0 <= k < |files| && files[k].extension == "md" && files[k].path == m.path
  {
    if files != [] {
      var init := files[..|files| - 1];
      var n := |files| - 1;
      FolderMemosPaths(init);
      forall m | m in FolderMemos(files)
        ensures exists k :: 0 <= k < |files| && files[k].extension == "md" && files[k].path == m.path
      {
        FolderMemosLast(files, m);
        if m in FolderMemos(init) {
          var k :| 0 <= k < |init| && init[k].extension == "md" && init[k].path == m.path;
          assert files[k] == init[k];
        } else {
          assert files[n].extension == "md" && files[n].path == m.path;
        }
      }
    }
  }

  /** A memo of the folder is a memo of all files but the last, or the memo
      of the last file, which is a markdown file. */
  lemma FolderMemosLast(files: seq<MemoFile>, m: Memo)
    requires files != [] && m in FolderMemos(files)
    ensures var last := files[|files| - 1];
      m in FolderMemos(files[..|files| - 1]) || (last.extension == "md" && m.path == last.path)
  {
  }
}
