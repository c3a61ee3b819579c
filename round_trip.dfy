/** The writer and the reader together: a line `waitForInsert` writes into
    a daily note reads back, through the per-line parser, as a memo with
    the same clock, the same (`<br>`-encoded) content and the matching type. */
module RoundTrip {
  import opened Text
  import opened Timestamp
  import opened Memos
  import GetMemos
  import CreateMemo

  /** A clock field of the written line: two digits that read back as `n`. */
  lemma ClockField(n: nat)
    requires n < 100
    ensures var t := ZeroPad(n, 2);
      |t| == 2 && IsDigit(t[0]) && IsDigit(t[1]) && ParseInt(t) == Some(n)
  {
    assert Pow10(2) == 100;
    FieldPad(n, 2);
    ParseIntOfDecimal(ZeroPad(n, 2));
  }

  /** The written line: the bullet, `HH:mm`, a space and the text. */
  function EventLine(isTask: bool, d: DateTime, text: string): string
  {
    CreateMemo.BulletPrefix(isTask) + HourMinute(d) + " " + text
  }

  /** Where the clock starts: after `- [ ] ` for a task, after `- ` otherwise. */
  function ClockStart(isTask: bool): nat
  {
    if isTask then 6 else 2
  }

  /** The pieces of a line `pre + hh + ":" + mm + " " + text`, by position. */
  lemma Layout(pre: string, hh: string, mm: string, text: string)
    requires |hh| == 2 && |mm| == 2
    ensures var line, k := pre + hh + ":" + mm + " " + text, |pre|;
      |line| == k + 6 + |text| && line[..k] == pre
      && line[k..k + 2] == hh && line[k + 2] == ':' && line[k + 3..k + 5] == mm
      && line[k + 5] == ' ' && line[k + 6..] == text
  {
  }

  /** The bullet prefix: `- `, or `- [ ] ` for a task. */
  lemma PrefixChars(isTask: bool)
    ensures var pre := CreateMemo.BulletPrefix(isTask);
      |pre| == ClockStart(isTask) && pre[0] == '-' && pre[1] == ' '
      && (isTask ==> pre[2] == '[' && pre[3] == ' ' && pre[4] == ']' && pre[5] == ' ')
  {
  }

  /** The characters of the written line, position by position. */
  lemma EventLayout(isTask: bool, d: DateTime, text: string)
    requires d.hour < 100 && d.minute < 100
    ensures var line, k := EventLine(isTask, d, text), ClockStart(isTask);
      |line| == k + 6 + |text| && line[0] == '-' && line[1] == ' '
      && (isTask ==> line[2] == '[' && line[3] == ' ' && line[4] == ']' && line[5] == ' ')
      && line[k..k + 2] == ZeroPad(d.hour, 2) && line[k + 2] == ':' && line[k + 3..k + 5] == ZeroPad(d.minute, 2)
      && IsDigit(line[k]) && IsDigit(line[k + 1]) && IsDigit(line[k + 3]) && IsDigit(line[k + 4])
      && line[k + 5] == ' ' && line[k + 6..] == text
  {
    ClockField(d.hour);
    ClockField(d.minute);
    EventLineParts(isTask, d, text);
    PrefixChars(isTask);
    WrittenLayout(isTask, CreateMemo.BulletPrefix(isTask), ZeroPad(d.hour, 2), ZeroPad(d.minute, 2), text,
                  EventLine(isTask, d, text));
  }

  lemma EventLineParts(isTask: bool, d: DateTime, text: string)
    ensures EventLine(isTask, d, text)
      == CreateMemo.BulletPrefix(isTask) + ZeroPad(d.hour, 2) + ":" + ZeroPad(d.minute, 2) + " " + text
  {
    var hh, mm := ZeroPad(d.hour, 2), ZeroPad(d.minute, 2);
    var pre := CreateMemo.BulletPrefix(isTask);
    assert HourMinute(d) == hh + ":" + mm;
    AppendAssoc(pre, hh + ":", mm);
    AppendAssoc(pre, hh, ":");
  }

  /** The layout of `pre + hh + ":" + mm + " " + text` for a bullet prefix
      and two-digit fields. */
  lemma WrittenLayout(isTask: bool, pre: string, hh: string, mm: string, text: string, line: string)
    requires |hh| == 2 && |mm| == 2 && IsDigit(hh[0]) && IsDigit(hh[1]) && IsDigit(mm[0]) && IsDigit(mm[1])
    requires |pre| == ClockStart(isTask) && pre[0] == '-' && pre[1] == ' '
    requires isTask ==> pre[2] == '[' && pre[3] == ' ' && pre[4] == ']' && pre[5] == ' '
    requires line == pre + hh + ":" + mm + " " + text
    ensures var k := ClockStart(isTask);
      |line| == k + 6 + |text| && line[0] == '-' && line[1] == ' '
      && (isTask ==> line[2] == '[' && line[3] == ' ' && line[4] == ']' && line[5] == ' ')
      && line[k..k + 2] == hh && line[k + 2] == ':' && line[k + 3..k + 5] == mm
      && IsDigit(line[k]) && IsDigit(line[k + 1]) && IsDigit(line[k + 3]) && IsDigit(line[k + 4])
      && line[k + 5] == ' ' && line[k + 6..] == text
  {
    Layout(pre, hh, mm, text);
    var k := ClockStart(isTask);
    assert line[0] == line[..k][0] && line[1] == line[..k][1];
    if isTask {
      assert line[2] == line[..k][2] && line[3] == line[..k][3] && line[4] == line[..k][4] && line[5] == line[..k][5];
    }
    assert line[k] == hh[0] && line[k + 1] == hh[1];
    assert line[k + 3] == mm[0] && line[k + 4] == mm[1];
  }

  /** The bullet patterns find the bullet, the checkbox exactly for a task,
      and the clock right where it was written. */
  lemma EventBullet(isTask: bool, d: DateTime, text: string)
    requires d.hour < 100 && d.minute < 100
    ensures var line, k := EventLine(isTask, d, text), ClockStart(isTask);
      GetMemos.BulletEnd(line) == Some(2)
      && GetMemos.BoxAt(line, 2) == isTask && (isTask ==> GetMemos.SpaceAt(line, 5))
      && GetMemos.TimeOpen(line, k) == k
      && GetMemos.ClockAt(line, k) == Some(GetMemos.Clock(ZeroPad(d.hour, 2), ZeroPad(d.minute, 2), k + 5))
      && !At(line, "</time>", k + 5)
  {
    EventLayout(isTask, d, text);
    var line, k := EventLine(isTask, d, text), ClockStart(isTask);
    TrimStartNonSpace(line);
    assert !At(line, "<time>", k) by {
      assert "<time>"[0] == '<';
    }
    assert !At(line, "</time>", k + 5) by {
      assert "</time>"[0] == '<';
    }
  }

  /** After the clock the line holds no line terminator when the text holds none. */
  lemma EventTail(isTask: bool, d: DateTime, text: string)
    requires d.hour < 100 && d.minute < 100 && NoLineTerminator(text)
    ensures var line, k := EventLine(isTask, d, text), ClockStart(isTask);
      NoLineTerminator(line[k..]) && NoLineTerminator(line[k + 5..]) && NoLineTerminator(line[k + 6..])
      && GetMemos.SpaceAt(line, k + 5)
  {
    EventLayout(isTask, d, text);
    ClockTail(EventLine(isTask, d, text), ClockStart(isTask), text);
  }

  /** A clock, a space and a text without line terminators: no line
      terminator from the clock on. */
  lemma ClockTail(line: string, k: nat, text: string)
    requires |line| == k + 6 + |text| && NoLineTerminator(text)
    requires IsDigit(line[k]) && IsDigit(line[k + 1]) && line[k + 2] == ':' && IsDigit(line[k + 3]) && IsDigit(line[k + 4])
    requires line[k + 5] == ' ' && line[k + 6..] == text
    ensures NoLineTerminator(line[k..]) && NoLineTerminator(line[k + 5..]) && NoLineTerminator(line[k + 6..])
    ensures GetMemos.SpaceAt(line, k + 5)
  {
    forall j | k <= j < |line|
      ensures !IsLineTerminator(line[j])
    {
      if j >= k + 6 {
        assert line[j] == text[j - k - 6];
      }
    }
    var u, v, w := line[k..], line[k + 5..], line[k + 6..];
    forall j | 0 <= j < |u|
      ensures !IsLineTerminator(u[j])
    {
      assert u[j] == line[k + j];
    }
    forall j | 0 <= j < |v|
      ensures !IsLineTerminator(v[j])
    {
      assert v[j] == line[k + 5 + j];
    }
    assert w == text;
  }

  /** The written line contains a time, its clock match reads the written
      hours and minutes, its text is the written text, and its type is
      TASK-TODO for a task and JOURNAL otherwise. */
  lemma EventMatches(tpl: Composition, isTask: bool, d: DateTime, text: string)
    requires d.hour < 100 && d.minute < 100 && NoLineTerminator(text)
    ensures var line, k := EventLine(isTask, d, text), ClockStart(isTask);
      GetMemos.LineContainsTime(line, tpl)
      && GetMemos.ClockMatch(line, tpl) == Some(GetMemos.Clock(ZeroPad(d.hour, 2), ZeroPad(d.minute, 2), k + 5))
      && GetMemos.ExtractText(line, tpl) == Some(text)
      && GetMemos.LineType(line) == (if isTask then TaskTodo else Journal)
  {
    EventLayout(isTask, d, text);
    EventBullet(isTask, d, text);
    EventTail(isTask, d, text);
    var line, k := EventLine(isTask, d, text), ClockStart(isTask);
    assert GetMemos.ClockTail(line, k + 5, tpl);
    assert GetMemos.TextTail(line, k + 5, tpl) == Some(text);
    assert GetMemos.AfterClock(line, k + 5, tpl) == Some(text);
    assert GetMemos.AfterOpen(line, k, tpl) == Some(text);
    assert GetMemos.AfterBox(line, k, tpl) == Some(text) by {
      assert !At(line, "<time>", k) by {
        assert line[k] != '<';
      }
    }
    if isTask {
      assert GetMemos.ExtractMemoTaskType(line) == Some(" ") by {
        assert [line[3]] == " ";
      }
    }
  }

  /** Before the text the line holds only the bullet, the clock and spaces:
      no `c`, so no `comment: ` starts there. */
  lemma HeadWithoutC(isTask: bool, d: DateTime, text: string)
    requires d.hour < 100 && d.minute < 100
    ensures 'c' !in EventLine(isTask, d, text)[..ClockStart(isTask) + 6]
  {
    EventLayout(isTask, d, text);
    var line, k := EventLine(isTask, d, text), ClockStart(isTask);
    forall j | 0 <= j < k + 6
      ensures line[j] != 'c'
    {
      if k <= j < k + 2 {
        assert line[j] == line[k..k + 2][j - k];
      } else if k + 3 <= j < k + 5 {
        assert line[j] == line[k + 3..k + 5][j - k - 3];
      }
    }
  }

  /** A pattern whose first character the prefix lacks occurs in `pre + s`
      only if it occurs in `s`. */
  lemma ContainsPastPrefix(pre: string, s: string, p: string)
    requires p != [] && p[0] !in pre
    ensures Contains(pre + s, p) ==> Contains(s, p)
  {
    var t := pre + s;
    if Contains(t, p) {
      var i := IndexOf(t, p);
      assert t[i] == p[0];
      forall j | 0 <= j < |pre|
        ensures !At(t, p, j)
      {
        assert t[j] == pre[j];
      }
      assert i >= |pre|;
      var j := i - |pre|;
      assert At(t, p, i);
      assert j + |p| <= |s|;
      assert t[i..i + |p|] == s[j..j + |p|];
      assert At(s, p, j);
      ContainsIff(s, p);
    }
  }

  /** The text of a new memo has no line terminator when the content has no
      line terminator other than `\n`. */
  lemma EncodedOneLine(content: string)
    requires '\r' !in content && '\U{2028}' !in content && '\U{2029}' !in content
    ensures NoLineTerminator(CreateMemo.EncodeBreaks(content))
    ensures content != [] ==> CreateMemo.EncodeBreaks(content) != []
  {
    ReplaceAllKeepsAbsent(content, "\n", "<br>", '\r');
    ReplaceAllKeepsAbsent(content, "\n", "<br>", '\U{2028}');
    ReplaceAllKeepsAbsent(content, "\n", "<br>", '\U{2029}');
  }

  /** The round trip of a daily-note memo: the line `waitForInsert` writes
      for content at moment `d`, read back from the note of day `fileDate`
      as line `i`, is the memo with `d`'s hours and minutes on that day, the
      `<br>`-encoded content, and TASK-TODO or JOURNAL as it was created. */
  lemma NewLineReadsBack(tpl: Composition, isTask: bool, d: DateTime, content: string,
                         i: nat, fileDate: DateTime, path: string, randomId: string)
    requires d.hour < 100 && d.minute < 100
    requires content != [] && '$' !in content
    requires '\r' !in content && '\U{2028}' !in content && '\U{2029}' !in content
    requires !Contains(CreateMemo.EncodeBreaks(content), "comment: ")
    ensures var text := CreateMemo.EncodeBreaks(content);
      var s := DateTime(fileDate.year, fileDate.month, fileDate.day, d.hour, d.minute, 0);
      GetMemos.ParseLine(CreateMemo.NewEvent(tpl, isTask, HourMinute(d), content), i, tpl, fileDate, path, randomId)
      == Some(Memo(DailyCompact(s) + NatToString(i), text, DailyStamp(s), DailyStamp(s),
                   if isTask then TaskTodo else Journal, GetMemos.BlockIdOf(text, randomId), path))
  {
    var text := CreateMemo.EncodeBreaks(content);
    EncodedOneLine(content);
    CreateMemo.NewEventShape(tpl, isTask, d, content);
    var line := EventLine(isTask, d, text);
    assert CreateMemo.NewEvent(tpl, isTask, HourMinute(d), content) == line;
    EventMatches(tpl, isTask, d, text);
    EventLayout(isTask, d, text);
    ClockField(d.hour);
    ClockField(d.minute);
    var k := ClockStart(isTask);
    var pre := line[..k + 6];
    assert line == pre + text;
    HeadWithoutC(isTask, d, text);
    ContainsPastPrefix(pre, text, "comment: ");
    assert GetMemos.LineStamp(line, tpl, fileDate) == DateTime(fileDate.year, fileDate.month, fileDate.day, d.hour, d.minute, 0);
  }

  // ---------------------------------------------------------------------------
  // An individual memo file, written and read back
  // ---------------------------------------------------------------------------

  /** No two dashes in a row. */
  predicate NoDashPair(s: string)
  {
    forall j :: 0 <= j < |s| - 1 ==> !(s[j] == '-' && s[j + 1] == '-')
  }

  /** Two pieces without a dash pair that do not meet in one. */
  lemma PairConcat(a: string, b: string)
    requires NoDashPair(a) && NoDashPair(b)
    requires a == [] || b == [] || a[|a| - 1] != '-' || b[0] != '-'
    ensures NoDashPair(a + b)
  {
    var s := a + b;
    forall j | 0 <= j < |s| - 1
      ensures !(s[j] == '-' && s[j + 1] == '-')
    {
      if j + 1 < |a| {
        assert s[j] == a[j] && s[j + 1] == a[j + 1];
      } else if j >= |a| {
        assert s[j] == b[j - |a|] && s[j + 1] == b[j + 1 - |a|];
      } else {
        assert s[j] == a[|a| - 1] && s[j + 1] == b[0];
      }
    }
  }

  /** Appending dash-free text keeps the property. */
  lemma PairConcatFree(a: string, b: string)
    requires NoDashPair(a) && '-' !in b
    ensures NoDashPair(a + b)
  {
    if b != [] {
      assert b[0] in b;
    }
    PairConcat(a, b);
  }

  /** The `created` value has single dashes between digit fields. */
  lemma StampNoDashPair(d: DateTime)
    ensures NoDashPair(Stamp(d, '-'))
  {
    var y, mo, da := ZeroPad(d.year, 4), ZeroPad(d.month, 2), ZeroPad(d.day, 2);
    assert '-' !in y && '-' !in mo && '-' !in da;
    var rest := " " + HourMinute(d) + ":" + ZeroPad(d.second, 2);
    assert '-' !in HourMinute(d) by {
      assert HourMinute(d) == ZeroPad(d.hour, 2) + ":" + ZeroPad(d.minute, 2);
      assert '-' !in ZeroPad(d.hour, 2) && '-' !in ZeroPad(d.minute, 2);
    }
    assert '-' !in ZeroPad(d.second, 2);
    assert '-' !in rest;
    PairConcatFree([], y);
    PairConcat(y, "-");
    PairConcatFree(y + "-", mo);
    PairConcat(y + "-" + mo, "-");
    PairConcatFree(y + "-" + mo + "-", da);
    PairConcatFree(y + "-" + mo + "-" + da, rest);
    assert Stamp(d, '-') == y + "-" + mo + "-" + da + rest;
  }

  /** The tag list, joined by new lines, has no dash pair when no tag has one. */
  lemma {:induction false} TagLinesNoDashPair(tags: seq<string>)
    requires forall t :: t in tags ==> NoDashPair(t)
    ensures NoDashPair(Join(CreateMemo.TagLines(tags), "\n"))
  {
    if tags != [] {
      var head := "  - " + tags[0];
      PairConcat("  - ", tags[0]);
      if |tags| == 1 {
        assert CreateMemo.TagLines(tags) == [head];
      } else {
        TagLinesNoDashPair(tags[1..]);
        assert CreateMemo.TagLines(tags) == [head] + CreateMemo.TagLines(tags[1..]);
        assert CreateMemo.TagLines(tags)[1..] == CreateMemo.TagLines(tags[1..]);
        PairConcatFree(head, "\n");
        PairConcat(head + "\n", Join(CreateMemo.TagLines(tags[1..]), "\n"));
      }
    }
  }

  /** What lies between the opening and the closing fence. */
  function FenceBody(d: DateTime, isTask: bool, tags: seq<string>): string
  {
    "\ncreated: " + Stamp(d, '-') + "\ntype: " + CreateMemo.TypeWord(isTask) + CreateMemo.TagBlock(tags) + "\n"
  }

  lemma FenceBodyNoDashPair(d: DateTime, isTask: bool, tags: seq<string>)
    requires forall t :: t in tags ==> NoDashPair(t)
    ensures NoDashPair(FenceBody(d, isTask, tags))
  {
    StampNoDashPair(d);
    var word := CreateMemo.TypeWord(isTask);
    assert '-' !in word;
    PairConcatFree([], "\ncreated: ");
    PairConcat("\ncreated: ", Stamp(d, '-'));
    var a := "\ncreated: " + Stamp(d, '-');
    PairConcatFree(a, "\ntype: " + word);
    AppendAssoc(a, "\ntype: ", word);
    var b := a + "\ntype: " + word;
    var block := CreateMemo.TagBlock(tags);
    if |tags| > 0 {
      TagLinesNoDashPair(tags);
      PairConcat("\ntags:\n", Join(CreateMemo.TagLines(tags), "\n"));
    }
    assert block == [] || block[0] == '\n';
    PairConcat(b, block);
    PairConcatFree(b + block, "\n");
  }

  /** The frontmatter is the fence body between two fences, then a blank line. */
  lemma FrontmatterFences(d: DateTime, isTask: bool, tags: seq<string>)
    ensures CreateMemo.Frontmatter(d, isTask, tags) == "---" + FenceBody(d, isTask, tags) + "---" + "\n\n"
    ensures var mid := FenceBody(d, isTask, tags); mid != [] && mid[|mid| - 1] == '\n'
  {
    Regroup(Stamp(d, '-'), CreateMemo.TypeWord(isTask), CreateMemo.TagBlock(tags));
  }

  lemma Regroup(s: string, w: string, b: string)
    ensures "---\ncreated: " + s + "\ntype: " + w + b + "\n---\n\n"
      == "---" + ("\ncreated: " + s + "\ntype: " + w + b + "\n") + "---" + "\n\n"
  {
    var x := "\ncreated: " + s + "\ntype: " + w + b;
    assert "---\ncreated: " == "---" + "\ncreated: ";
    assert "\n---\n\n" == "\n" + "---" + "\n\n";
    assert "---\ncreated: " + s + "\ntype: " + w + b == "---" + x;
  }

  /** A fence body without a dash pair that ends in a new line holds no
      `---`, not even one running into the closing fence. */
  lemma FenceFree(mid: string, rest: string)
    requires NoDashPair(mid) && mid != [] && mid[|mid| - 1] == '\n'
    ensures forall j :: 3 <= j < 3 + |mid| ==> !At("---" + mid + "---" + rest, "---", j)
  {
    var text := "---" + mid + "---" + rest;
    forall j | 3 <= j < 3 + |mid|
      ensures !At(text, "---", j)
    {
      if j + 1 < 3 + |mid| {
        assert text[j] == mid[j - 3] && text[j + 1] == mid[j - 2];
      } else {
        assert text[j] == mid[|mid| - 1];
      }
      assert text[j] != '-' || text[j + 1] != '-';
      assert |text| >= j + 3 ==> text[j..j + 3][0] == text[j] && text[j..j + 3][1] == text[j + 1];
    }
  }

  /** Skipping white space in front does not change the trimmed text. */
  lemma {:induction false} TrimStartSkip(s: string, k: nat)
    requires k <= |s| && AllSpace(s[..k])
    ensures TrimStart(s[k..]) == TrimStart(s)
  {
    if k > 0 {
      AllSpaceTail(s, k);
      TrimStartSkip(s[1..], k - 1);
      assert s[1..][k - 1..] == s[k..];
    }
  }

  /** A white-space prefix: its first character is white space, and the rest
      of it is a white-space prefix of the tail. */
  lemma AllSpaceTail(s: string, k: nat)
    requires 0 < k <= |s| && AllSpace(s[..k])
    ensures IsSpace(s[0]) && TrimStart(s) == TrimStart(s[1..]) && AllSpace(s[1..][..k - 1])
  {
    assert s[..k][0] == s[0];
    var t := s[1..][..k - 1];
    forall j | 0 <= j < k - 1
      ensures IsSpace(t[j])
    {
      assert t[j] == s[..k][j + 1];
    }
  }

  /** The round trip of an individual memo file: the file
      `createIndividualMemoFile` writes, read back with the frontmatter's
      `created` and `type` values, is the memo it returned (same id, same
      `createdAt`, TASK-TODO or TASK-DONE exactly for a task) with the body
      as its trimmed content. */
  lemma FileReadsBack(content: string, isTask: bool, d: DateTime, tags: seq<string>,
                      ctime: DateTime, mtime: DateTime, path: string)
    requires Valid(d)
    requires forall t :: t in tags ==> NoDashPair(t)
    ensures var body := CreateMemo.FileBody(content, isTask);
      var m := GetMemos.DecodeIndividualFile(CreateMemo.Frontmatter(d, isTask, tags) + body,
                                             Some(Stamp(d, '-')), Some(CreateMemo.TypeWord(isTask)), ctime, mtime, path);
      m.id == CompactSecond(d) + "001" && m.createdAt == Stamp(d, '/')
      && m.content == Trim(body) && (m.memoType != Journal <==> isTask) && m.path == path
  {
    var body := CreateMemo.FileBody(content, isTask);
    var mid := FenceBody(d, isTask, tags);
    FenceBodyNoDashPair(d, isTask, tags);
    FrontmatterFences(d, isTask, tags);
    StripFenced(mid, body);
    var text := CreateMemo.Frontmatter(d, isTask, tags) + body;
    AppendAssoc("---" + mid + "---", "\n\n", body);
    DecodeWritten(text, isTask, d, ctime, mtime, path);
  }

  /** Decoding with the `created` and `type` values the writer put in the
      frontmatter. */
  lemma DecodeWritten(text: string, isTask: bool, d: DateTime, ctime: DateTime, mtime: DateTime, path: string)
    requires Valid(d)
    ensures var m := GetMemos.DecodeIndividualFile(text, Some(Stamp(d, '-')), Some(CreateMemo.TypeWord(isTask)),
                                                   ctime, mtime, path);
      m.id == CompactSecond(d) + "001" && m.createdAt == Stamp(d, '/')
      && m.content == Trim(GetMemos.StripFrontmatter(text)) && (m.memoType != Journal <==> isTask) && m.path == path
  {
    ParseStampOfStamp(d, '-');
    assert Stamp(d, '-') != "" by {
      assert |DatePart(d, '-')| >= 1;
    }
    assert GetMemos.CreatedDate(Some(Stamp(d, '-')), ctime) == d;
  }

  /** The reader drops the fenced block and the blank line after it, and
      trimming then gives the trimmed body. */
  lemma StripFenced(mid: string, body: string)
    requires NoDashPair(mid) && mid != [] && mid[|mid| - 1] == '\n'
    ensures Trim(GetMemos.StripFrontmatter("---" + mid + "---" + ("\n\n" + body))) == Trim(body)
  {
    var rest := "\n\n" + body;
    FenceFree(mid, rest);
    GetMemos.StripFrontmatterOf(mid, rest);
    TrimAfterBreaks(body, rest, GetMemos.NewlineRunEnd(rest, 0));
  }

  /** The blank lines in front of the body do not survive trimming. */
  lemma TrimAfterBreaks(body: string, rest: string, e: nat)
    requires rest == "\n\n" + body && e <= |rest| && forall j :: 0 <= j < e ==> rest[j] == '\n'
    ensures Trim(rest[e..]) == Trim(body)
  {
    NewlinesSpace(rest, e);
    TrimStartSkip(rest, e);
    assert rest[0] == '\n' && rest[1] == '\n';
    NewlinesSpace(rest, 2);
    TrimStartSkip(rest, 2);
    assert rest[2..] == body;
    TrimSameStart(rest[e..], body);
  }

  /** A run of new lines is white space. */
  lemma NewlinesSpace(s: string, k: nat)
    requires k <= |s| && forall j :: 0 <= j < k ==> s[j] == '\n'
    ensures AllSpace(s[..k])
  {
    forall j | 0 <= j < k
      ensures IsSpace(s[..k][j])
    {
      assert s[..k][j] == s[j];
    }
  }

  /** Texts that agree once leading white space is skipped trim alike. */
  lemma TrimSameStart(a: string, b: string)
    requires TrimStart(a) == TrimStart(b)
    ensures Trim(a) == Trim(b)
  {
  }
}
