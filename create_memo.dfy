/** The writer: the line splitter, the search for the insertion point after
    the `InsertAfter` anchor, the line splice, the bullet a new memo becomes,
    the record `waitForInsert` returns, and the text of an individual memo
    file. */
module CreateMemo {
  import opened Text
  import opened Timestamp
  import opened Memos

  // ---------------------------------------------------------------------------
  // escapeRegExp
  // ---------------------------------------------------------------------------

  /** The characters `escapeRegExp` prefixes with a backslash: the class
      `[-[\]{}()*+?.,\\^$|#\s]`. */
  predicate EscapedChar(c: char)
  {
    c in "-[]{}()*+?.,\\^$|#" || IsSpace(c)
  }

  /** `text.replace(/[-[\]{}()*+?.,\\^$|#\s]/g, '\\$&')`. */
  function EscapeRegExp(text: string): (r: string)
    ensures |r| >= |text|
  {
    if text == [] then ""
    else (if EscapedChar(text[0]) then ['\\', text[0]] else [text[0]]) + EscapeRegExp(text[1..])
  }

  /** The pattern is a sequence of atoms that each stand for one character: a
      character that is neither escaped nor a backslash, or a backslash and
      an escaped character (an identity escape). */
  predicate LiteralPattern(p: string)
    decreases |p|
  {
    if p == [] then true
    else if p[0] == '\\' then |p| >= 2 && EscapedChar(p[1]) && LiteralPattern(p[2..])
    else !EscapedChar(p[0]) && LiteralPattern(p[1..])
  }

  /** The text a literal pattern matches. */
  function LiteralText(p: string): string
    requires LiteralPattern(p)
    decreases |p|
  {
    if p == [] then ""
    else if p[0] == '\\' then [p[1]] + LiteralText(p[2..])
    else [p[0]] + LiteralText(p[1..])
  }

  /** The escaped text is a literal pattern for exactly the text. */
  lemma {:induction false} EscapeRegExpLiteral(text: string)
    ensures LiteralPattern(EscapeRegExp(text)) && LiteralText(EscapeRegExp(text)) == text
  {
    if text != [] {
      EscapeRegExpLiteral(text[1..]);
      var r := EscapeRegExp(text);
      var rest := EscapeRegExp(text[1..]);
      if EscapedChar(text[0]) {
        assert r[2..] == rest;
      } else {
        assert r[1..] == rest;
      }
      assert [text[0]] + text[1..] == text;
    }
  }

  /** The anchor pattern `\s*${escaped}\s*`: in a template literal `\s` is
      the letter `s`, so the pattern is `s*`, the literal anchor, `s*`. Since
      `s*` also matches nothing, the pattern occurs in a line exactly when the
      anchor text does, which is the test `AnchorIndex` makes. */
  function AnchorPattern(target: string): (p: string)
    ensures |p| >= 4 && StartsWith(p, "s*") && p[|p| - 2..] == "s*"
    ensures LiteralPattern(p[2..|p| - 2]) && LiteralText(p[2..|p| - 2]) == target
  {
    EscapeRegExpLiteral(target);
    var p := "s*" + EscapeRegExp(target) + "s*";
    assert p[2..|p| - 2] == EscapeRegExp(target);
    assert p[..2] == "s*" && p[|p| - 2..] == "s*";
    p
  }

  // ---------------------------------------------------------------------------
  // getLinesInString
  // ---------------------------------------------------------------------------

  lemma FirstNewline(s: string)
    requires Contains(s, "\n")
    ensures var k := IndexOf(s, "\n");
      0 <= k < |s| && '\n' !in s[..k] && s == s[..k] + "\n" + s[k + 1..]
  {
    var k := IndexOf(s, "\n");
    forall j | 0 <= j < k ensures s[j] != '\n' {
      assert !At(s, "\n", j);
    }
    assert s[k..k + 1] == "\n";
  }

  lemma NoNewline(s: string)
    requires !Contains(s, "\n")
    ensures '\n' !in s
  {
    if '\n' in s {
      var j :| 0 <= j < |s| && s[j] == '\n';
      assert At(s, "\n", j);
    }
  }

  /** `getLinesInString`: cut at each `\n` in turn. The result is `Split`
      at `\n`, whose lines join back to the input (`JoinSplit`), hold no
      `\n` (`SplitPiecesFree`) and number one more than the newlines
      (`SplitCount`). */
  method GetLinesInString(input: string) returns (lines: seq<string>)
    ensures lines == Split(input, '\n')
  {
    lines := [];
    var temp := input;
    while Contains(temp, "\n")
      invariant Split(input, '\n') == lines + Split(temp, '\n')
      decreases |temp|
    {
      var lineEnd := IndexOf(temp, "\n");
      FirstNewline(temp);
      SplitAfterPiece(temp[..lineEnd], temp[lineEnd + 1..], '\n');
      lines := lines + [temp[..lineEnd]];
      temp := temp[lineEnd + 1..];
    }
    NoNewline(temp);
    SplitFree(temp, '\n');
    lines := lines + [temp];
  }

  // ---------------------------------------------------------------------------
  // insertTextAfterPositionInBody
  // ---------------------------------------------------------------------------

  /** `MContent`: the new note text and the position it reports. */
  datatype Inserted = Inserted(content: string, posNum: int)

  /** The index `Array.prototype.slice` uses for an end argument `k` on an
      array of length `len`. */
  function SliceIndex(len: nat, k: int): (r: nat)
    ensures r <= len
  {
    if k < 0 then (if len + k < 0 then 0 else len + k) else if k > len then len else k
  }

  /** Splitting a join of newline-free pieces gives them back. */
  lemma LinesOfJoin(xs: seq<string>)
    requires |xs| >= 1 && forall k :: 0 <= k < |xs| ==> '\n' !in xs[k]
    ensures Split(Join(xs, "\n"), '\n') == xs
  {
    SplitJoin(xs, '\n');
  }

  /** Appending after a newline adds the text's lines after the body's. */
  lemma AppendLines(body: string, text: string)
    ensures Split(body + "\n" + text, '\n') == Split(body, '\n') + Split(text, '\n')
  {
    var xs := Split(body, '\n');
    var ys := Split(text, '\n');
    JoinSplit(body, '\n');
    JoinSplit(text, '\n');
    JoinAppend(xs, ys, "\n");
    SplitPiecesFree(body, '\n');
    SplitPiecesFree(text, '\n');
    LinesOfJoin(xs + ys);
  }

  /** The lines of `pre\ntext\npost`, where `pre` and `post` join
      newline-free lines. */
  lemma SpliceSplit(xs: seq<string>, text: string, zs: seq<string>)
    requires |xs| >= 1 && forall k :: 0 <= k < |xs| ==> '\n' !in xs[k]
    requires |zs| >= 1 && forall k :: 0 <= k < |zs| ==> '\n' !in zs[k]
    ensures Split(Join(xs, "\n") + "\n" + text + "\n" + Join(zs, "\n"), '\n') == xs + Split(text, '\n') + zs
  {
    var ys := Split(text, '\n');
    JoinSplit(text, '\n');
    JoinAppend(xs, ys, "\n");
    JoinAppend(xs + ys, zs, "\n");
    SplitPiecesFree(text, '\n');
    LinesOfJoin(xs + ys + zs);
  }

  /** `insertTextAfterPositionInBody`. Position `-1` appends; otherwise the
      text goes after line `pos` of the `\n`-split body, followed by the rest
      of the body when `found`. Without `found` the test `/[\s\S]*?/g` on the
      rest always succeeds, so the rest is dropped and the other branch is
      never taken. In lines: the text's lines go in after the body's first
      `c` lines (all of them for `-1`); with `found` the remaining lines
      follow unchanged, or one empty line when none remain. */
  function InsertTextAfterPositionInBody(text: string, body: string, pos: int, found: bool): (r: Inserted)
    ensures r.posNum == pos
    ensures pos == -1 ==> Split(r.content, '\n') == Split(body, '\n') + Split(text, '\n')
    ensures pos >= 0 ==>
      var parts := Split(body, '\n');
      var c := SliceIndex(|parts|, pos + 1);
      1 <= c <= |parts|
      && Split(r.content, '\n')
         == parts[..c] + Split(text, '\n') + (if !found then [] else if c < |parts| then parts[c..] else [""])
  {
    if pos == -1 then AppendLines(body, text); Inserted(body + "\n" + text, -1)
    else
      var parts := Split(body, '\n');
      var c := SliceIndex(|parts|, pos + 1);
      var pre := Join(parts[..c], "\n");
      var post := Join(parts[c..], "\n");
      SplitPiecesFree(body, '\n');
      if pos < 0 then
        if found then Inserted(pre + "\n" + text + "\n" + post, pos) else Inserted(pre + "\n" + text, pos)
      else if found then
        var zs := if c < |parts| then parts[c..] else [""];
        assert post == Join(zs, "\n");
        SpliceSplit(parts[..c], text, zs);
        Inserted(pre + "\n" + text + "\n" + post, pos)
      else
        LinesOfJoin(parts[..c]);
        AppendLines(pre, text);
        Inserted(pre + "\n" + text, pos)
  }

  /** At or after the last line the not-found splice is a plain append. */
  lemma AppendAtEnd(text: string, body: string, pos: int)
    requires pos >= |Split(body, '\n')| - 1
    ensures InsertTextAfterPositionInBody(text, body, pos, false) == Inserted(body + "\n" + text, pos)
  {
    if pos != -1 {
      var parts := Split(body, '\n');
      assert parts[..SliceIndex(|parts|, pos + 1)] == parts;
      JoinSplit(body, '\n');
    }
  }

  // ---------------------------------------------------------------------------
  // insertAfterHandler
  // ---------------------------------------------------------------------------

  /** `findIndex` of the first line containing `target` from `from` on, or -1. */
  function AnchorFrom(lines: seq<string>, target: string, from: nat): (r: int)
    ensures r == -1 || (from <= r < |lines| && Contains(lines[r], target))
    ensures forall j :: from <= j < |lines| && (r == -1 || j < r) ==> !Contains(lines[j], target)
    decreases |lines| - from
  {
    if from >= |lines| then -1
    else if Contains(lines[from], target) then from
    else AnchorFrom(lines, target, from + 1)
  }

  /** The anchor line: the first line the anchor pattern matches. */
  function AnchorIndex(lines: seq<string>, target: string): int
  {
    AnchorFrom(lines, target, 0)
  }

  /** The number of `#` at the start of a line. */
  function HashRun(line: string): (n: nat)
    ensures n <= |line| && forall j :: 0 <= j < n ==> line[j] == '#'
    ensures n < |line| ==> line[n] != '#'
  {
    if line != [] && line[0] == '#' then 1 + HashRun(line[1..]) else 0
  }

  /** `/^#+ |---/`: a Markdown heading, or any line holding `---`. */
  predicate IsHeading(line: string)
  {
    var n := HashRun(line);
    (n >= 1 && n < |line| && line[n] == ' ') || Contains(line, "---")
  }

  /** `findIndex` of the first heading from `from` on, or -1. */
  function HeadingFrom(lines: seq<string>, from: nat): (r: int)
    ensures r == -1 || (from <= r < |lines| && IsHeading(lines[r]))
    ensures forall j :: from <= j < |lines| && (r == -1 || j < r) ==> !IsHeading(lines[j])
    decreases |lines| - from
  {
    if from >= |lines| then -1
    else if IsHeading(lines[from]) then from
    else HeadingFrom(lines, from + 1)
  }

  /** `/^[\s\n ]*$/`: a line of white space only. */
  predicate Blank(line: string)
  {
    AllSpace(line)
  }

  /** The last line in `(lo, hi]` that is not blank. */
  function LastNonBlank(lines: seq<string>, lo: int, hi: int): (r: Option<nat>)
    requires -1 <= lo && hi < |lines|
    ensures r.Some? ==> lo < r.value <= hi && !Blank(lines[r.value])
    ensures forall j :: lo < j <= hi && (r.None? || r.value < j) ==> Blank(lines[j])
    decreases hi - lo
  {
    if hi <= lo then None
    else if !Blank(lines[hi]) then Some(hi)
    else LastNonBlank(lines, lo, hi - 1)
  }

  /** Where `insertAfterHandler` splices, and whether a heading was found. */
  datatype Point = Point(pos: int, found: bool)

  /** The splice point of `insertAfterHandler`. `lines[t + 1..]` is searched
      for the next heading (the whole file when there is no anchor,
      `t = -1`); its index in that slice is `h`, so `h + t` is the line just
      before the heading. The section ends at the last non-blank line after
      the anchor and up to there; none, or line 0, which the
      `!endOfSectionIndex` test takes for none, gives the anchor's own index.
      Without a heading the point is the last line. */
  function InsertionPoint(lines: seq<string>, target: string): (p: Point)
    requires |lines| >= 1
    ensures p.found ==> -1 <= p.pos < |lines| - 1
    ensures !p.found ==> p.pos == |lines| - 1
  {
    var t := AnchorIndex(lines, target);
    var h := HeadingFrom(lines[t + 1..], 0);
    if h != -1 then Point(SectionPos(lines, t, h + t), true)
    else Point(|lines| - 1, false)
  }

  /** The end of the section after line `t` whose heading follows line `last`. */
  function SectionPos(lines: seq<string>, t: int, last: int): (pos: int)
    requires -1 <= t <= last < |lines|
    ensures t <= pos <= last
  {
    var e := LastNonBlank(lines, t, last);
    if e.None? || e.value == 0 then t else e.value
  }

  /** A blank line at the top of the range does not end the section. */
  lemma LastNonBlankStep(lines: seq<string>, lo: int, hi: int)
    requires -1 <= lo < hi < |lines| && Blank(lines[hi])
    ensures LastNonBlank(lines, lo, hi) == LastNonBlank(lines, lo, hi - 1)
  {
  }

  /** What `insertAfterHandler` returns: `formatted` spliced in at the
      insertion point of the note's `\n`-split lines. */
  function InsertAfter(target: string, formatted: string, content: string): (r: Inserted)
    ensures -1 <= r.posNum < |Split(content, '\n')|
  {
    var pt := InsertionPoint(Split(content, '\n'), target);
    InsertTextAfterPositionInBody(formatted, content, pt.pos, pt.found)
  }

  /** The insertion point from the anchor `t` and the heading `h` after it. */
  lemma InsertionPointIs(lines: seq<string>, target: string, t: int, h: int, pos: int, found: bool)
    requires |lines| >= 1 && t == AnchorIndex(lines, target) && h == HeadingFrom(lines[t + 1..], 0)
    requires found == (h != -1)
    requires found ==> pos == SectionPos(lines, t, h + t)
    requires !found ==> pos == |lines| - 1
    ensures InsertionPoint(lines, target) == Point(pos, found)
  {
  }

  /** `insertAfterHandler` splices at its insertion point. */
  lemma InsertAfterAt(target: string, formatted: string, content: string, lines: seq<string>, pt: Point)
    requires lines == Split(content, '\n') && pt == InsertionPoint(lines, target)
    ensures InsertAfter(target, formatted, content) == InsertTextAfterPositionInBody(formatted, content, pt.pos, pt.found)
  {
  }

  /** `insertAfterHandler` reports the insertion point's position; at -1 it
      appends. */
  lemma InsertAfterPoint(target: string, formatted: string, content: string, lines: seq<string>, pt: Point)
    requires lines == Split(content, '\n') && pt == InsertionPoint(lines, target)
    ensures InsertAfter(target, formatted, content).posNum == pt.pos
    ensures pt.pos == -1 ==> InsertAfter(target, formatted, content) == Inserted(content + "\n" + formatted, -1)
  {
  }

  /** Without a heading after the anchor the note's text is appended to. */
  lemma InsertAfterAppends(target: string, formatted: string, content: string, lines: seq<string>, t: int)
    requires lines == Split(content, '\n') && t == AnchorIndex(lines, target)
    requires HeadingFrom(lines[t + 1..], 0) == -1
    ensures InsertAfter(target, formatted, content) == Inserted(content + "\n" + formatted, |lines| - 1)
  {
    InsertionPointIs(lines, target, t, -1, |lines| - 1, false);
    AppendsAtEnd(target, formatted, content, lines);
  }

  /** At the point after the last line, the text is appended. */
  lemma AppendsAtEnd(target: string, formatted: string, content: string, lines: seq<string>)
    requires lines == Split(content, '\n') && InsertionPoint(lines, target) == Point(|lines| - 1, false)
    ensures InsertAfter(target, formatted, content) == Inserted(content + "\n" + formatted, |lines| - 1)
  {
    AppendAtEnd(formatted, content, |lines| - 1);
  }

  /** The backward `for` loop of `insertAfterHandler`: from line `last` down
      to just after line `t`, the last line that is not blank, and the
      anchor's index `t` when there is none or it is line 0. */
  method SectionEnd(lines: seq<string>, t: int, last: int) returns (pos: int)
    requires -1 <= t <= last < |lines|
    ensures pos == SectionPos(lines, t, last)
  {
    var endOfSection: Option<nat> := None;
    var i := last;
    while i > t
      invariant t <= i <= last
      invariant LastNonBlank(lines, t, last) == LastNonBlank(lines, t, i)
      decreases i - t
    {
      if !Blank(lines[i]) {
        endOfSection := Some(i);
        break;
      }
      LastNonBlankStep(lines, t, i);
      i := i - 1;
    }
    pos := if endOfSection.None? || endOfSection.value == 0 then t else endOfSection.value;
  }

  /** `insertAfterHandler`. */
  method InsertAfterHandler(target: string, formatted: string, content: string) returns (r: Inserted)
    ensures r == InsertAfter(target, formatted, content)
  {
    var lines := GetLinesInString(content);
    var pos, found := FindInsertionPoint(lines, target);
    InsertAfterAt(target, formatted, content, lines, Point(pos, found));
    r := InsertTextAfterPositionInBody(formatted, content, pos, found);
  }

  /** The search part of `insertAfterHandler`: the anchor line, the next
      heading after it and the end of the section between them. */
  method FindInsertionPoint(lines: seq<string>, target: string) returns (pos: int, found: bool)
    requires |lines| >= 1
    ensures Point(pos, found) == InsertionPoint(lines, target)
  {
    var t := AnchorIndex(lines, target);
    var h := HeadingFrom(lines[t + 1..], 0);
    if h != -1 {
      pos := SectionEnd(lines, t, h + t);
      found := true;
    } else {
      pos, found := |lines| - 1, false;
    }
    InsertionPointIs(lines, target, t, h, pos, found);
  }

  /** The index the inserted text's first line takes: after line `posNum`, or
      after the last line when `posNum` is -1. */
  function InsertedAt(posNum: int, count: nat): nat
  {
    if posNum < 0 then count else posNum + 1
  }

  /** Whatever the case, the new note's lines are the old ones with the
      formatted text's lines put in at one index; nothing else changes. */
  lemma InsertAfterLines(target: string, formatted: string, content: string)
    ensures var lines := Split(content, '\n');
      var r := InsertAfter(target, formatted, content);
      var k := InsertedAt(r.posNum, |lines|);
      k <= |lines| && Split(r.content, '\n') == lines[..k] + Split(formatted, '\n') + lines[k..]
  {
    var lines := Split(content, '\n');
    var pt := InsertionPoint(lines, target);
    InsertAfterAt(target, formatted, content, lines, pt);
    SpliceAt(formatted, content, pt.pos, pt.found);
  }

  /** Wherever the splice goes, the body's lines take the text's lines at one
      index and nothing else changes. */
  lemma SpliceAt(text: string, body: string, pos: int, found: bool)
    requires var n := |Split(body, '\n')|; -1 <= pos < n && (found ==> pos < n - 1) && (!found ==> pos == n - 1)
    ensures var lines := Split(body, '\n');
      var r := InsertTextAfterPositionInBody(text, body, pos, found);
      var k := InsertedAt(r.posNum, |lines|);
      k <= |lines| && Split(r.content, '\n') == lines[..k] + Split(text, '\n') + lines[k..]
  {
    var lines := Split(body, '\n');
    if pos == -1 || !found {
      assert lines[..|lines|] == lines;
    }
  }

  /** With an anchor and a heading after it, the new line goes right after
      the last non-blank line between them, or right after the anchor when
      that stretch is blank; only blank lines separate it from the heading. */
  lemma InsertAfterSection(target: string, formatted: string, content: string)
    requires var lines := Split(content, '\n');
      var t := AnchorIndex(lines, target);
      t >= 0 && HeadingFrom(lines, t + 1) != -1
    ensures var lines := Split(content, '\n');
      var t := AnchorIndex(lines, target);
      var hd := HeadingFrom(lines, t + 1);
      var k := InsertAfter(target, formatted, content).posNum + 1;
      t < k <= hd
      && (forall j :: k <= j < hd ==> Blank(lines[j]))
      && (k > t + 1 ==> !Blank(lines[k - 1]))
  {
    var lines := Split(content, '\n');
    var t := AnchorIndex(lines, target);
    HeadingShift(lines, t + 1);
    var pt := InsertionPoint(lines, target);
    assert pt.found;
  }

  /** Searching the slice from `from` finds the heading `from` places earlier. */
  lemma HeadingShift(lines: seq<string>, from: nat)
    requires from <= |lines|
    ensures var h := HeadingFrom(lines[from..], 0);
      (h == -1 <==> HeadingFrom(lines, from) == -1)
      && (h != -1 ==> h + from == HeadingFrom(lines, from))
  {
    var h := HeadingFrom(lines[from..], 0);
    var g := HeadingFrom(lines, from);
    if h != -1 {
      assert lines[from..][h] == lines[h + from];
      forall j | from <= j < h + from ensures !IsHeading(lines[j]) {
        assert lines[from..][j - from] == lines[j];
      }
    } else {
      forall j | from <= j < |lines| ensures !IsHeading(lines[j]) {
        assert lines[from..][j - from] == lines[j];
      }
    }
  }

  /** Without a heading after the anchor (or anywhere, without an anchor)
      the line is appended to the note. */
  lemma InsertAfterNoHeading(target: string, formatted: string, content: string)
    requires var lines := Split(content, '\n');
      HeadingFrom(lines, AnchorIndex(lines, target) + 1) == -1
    ensures InsertAfter(target, formatted, content) ==
      Inserted(content + "\n" + formatted, |Split(content, '\n')| - 1)
  {
    var lines := Split(content, '\n');
    var t := AnchorIndex(lines, target);
    HeadingShift(lines, t + 1);
    InsertAfterAppends(target, formatted, content, lines, t);
  }

  /** Without an anchor the first heading of the file bounds the section: the
      line goes after the last non-blank line before it when that is not
      line 0, and is appended otherwise (`posNum` -1). */
  lemma InsertionPointNoAnchor(lines: seq<string>, target: string)
    requires |lines| >= 1 && AnchorIndex(lines, target) == -1 && HeadingFrom(lines, 0) != -1
    ensures var e := LastNonBlank(lines, -1, HeadingFrom(lines, 0) - 1);
      var pt := InsertionPoint(lines, target);
      pt.found && (e.Some? && e.value > 0 ==> pt.pos == e.value) && (e.None? || e.value == 0 ==> pt.pos == -1)
  {
    HeadingShift(lines, 0);
    assert lines[0..] == lines;
  }

  lemma InsertAfterNoAnchor(target: string, formatted: string, content: string)
    requires var lines := Split(content, '\n');
      AnchorIndex(lines, target) == -1 && HeadingFrom(lines, 0) != -1
    ensures var lines := Split(content, '\n');
      var e := LastNonBlank(lines, -1, HeadingFrom(lines, 0) - 1);
      var r := InsertAfter(target, formatted, content);
      (e.Some? && e.value > 0 ==> r.posNum == e.value)
      && (e.None? || e.value == 0 ==> r == Inserted(content + "\n" + formatted, -1))
  {
    var lines := Split(content, '\n');
    InsertionPointNoAnchor(lines, target);
    InsertAfterPoint(target, formatted, content, lines, InsertionPoint(lines, target));
  }

  // ---------------------------------------------------------------------------
  // waitForInsert
  // ---------------------------------------------------------------------------

  /** `MemoContent.replace(/\n/g, '<br>')`: the `<br>` sentinel. */
  function EncodeBreaks(content: string): (r: string)
    ensures '\n' !in r
  {
    ReplaceAllRemovesChar(content, "\n", "<br>", '\n');
    ReplaceAll(content, "\n", "<br>")
  }

  /** The bullet prefix of a new memo. */
  function BulletPrefix(isTask: bool): string
  {
    if isTask then "- [ ] " else "- "
  }

  /** `newEvent`: the bullet, then `HH:mm` and the content for the empty
      template, or the template with `{TIME}` and `{CONTENT}` replaced. */
  function NewEvent(tpl: Composition, isTask: bool, time: string, content: string): string
  {
    BulletPrefix(isTask) + ComposeBody(tpl, time, EncodeBreaks(content))
  }

  /** The new line is one line: no `\n`, the bullet first, and for content
      without `$` the body `HH:mm content` under both templates. */
  lemma NewEventShape(tpl: Composition, isTask: bool, d: DateTime, content: string)
    ensures var ev := NewEvent(tpl, isTask, HourMinute(d), content);
      '\n' !in ev && StartsWith(ev, BulletPrefix(isTask))
      && ('$' !in content ==> ev == BulletPrefix(isTask) + HourMinute(d) + " " + EncodeBreaks(content))
  {
    var time := HourMinute(d);
    var enc := EncodeBreaks(content);
    HourMinuteOneLine(d);
    ComposeOneLine(tpl, time, enc);
    var pre := BulletPrefix(isTask);
    PrefixedOneLine(pre, ComposeBody(tpl, time, enc));
    if '$' !in content {
      ReplaceAllKeepsAbsent(content, "\n", "<br>", '$');
      ComposePlain(tpl, time, enc);
    }
  }

  lemma HourMinuteOneLine(d: DateTime)
    ensures '\n' !in HourMinute(d)
  {
    var a, b := ZeroPad(d.hour, 2), ZeroPad(d.minute, 2);
    assert '\n' !in a && '\n' !in b;
  }

  lemma ComposeOneLine(tpl: Composition, time: string, enc: string)
    requires '\n' !in time && '\n' !in enc
    ensures '\n' !in ComposeBody(tpl, time, enc)
  {
    if tpl == TimeContent {
      ExpandAbsent(enc, "{CONTENT}", time + " ", "", '\n');
    }
  }

  lemma PrefixedOneLine(pre: string, body: string)
    requires '\n' !in pre && '\n' !in body
    ensures '\n' !in pre + body && StartsWith(pre + body, pre)
  {
    assert (pre + body)[..|pre|] == pre;
  }

  /** The outcome of `waitForInsert` for a daily note: the new note text and
      the returned record. */
  datatype Created = Created(note: string, memo: Memo)

  /** The line number the id ends in, as written: `posNum + 1`, or the line
      count of the new text plus one when `posNum` is -1. */
  function LineNumAsWritten(r: Inserted): nat
  {
    if r.posNum < 0 then |SplitCrLf(r.content)| + 1 else r.posNum + 1
  }

  /** The record `waitForInsert` builds around a line number. */
  function InsertedMemo(content: string, isTask: bool, d: DateTime, path: string, lineNum: nat): Memo
  {
    Memo(CompactMinute(d) + "00" + NatToString(lineNum), content, Stamp(d, '/'), Stamp(d, '/'),
         if isTask then TaskTodo else Journal, "", path)
  }

  /** `waitForInsert` in daily-note mode, as written: `note` is the text of
      the day's note, `anchor` the `InsertAfter` setting. */
  function WaitForInsert(content: string, isTask: bool, d: DateTime, tpl: Composition, anchor: string,
                         note: string, path: string): (c: Created)
    ensures c.memo.memoType == (if isTask then TaskTodo else Journal)
    ensures c.memo.createdAt == c.memo.updatedAt && c.memo.content == content && c.memo.hasId == ""
  {
    var r := InsertAfter(anchor, NewEvent(tpl, isTask, HourMinute(d), content), note);
    Created(r.content, InsertedMemo(content, isTask, d, path, LineNumAsWritten(r)))
  }

  /** The line number the id is meant to end in: the index of the new line
      in the new text, `posNum + 1` or, when appended, the old line count. */
  function LineNumIntended(r: Inserted, oldCount: nat): nat
  {
    InsertedAt(r.posNum, oldCount)
  }

  /** `waitForInsert` with the appended case numbered like the others. */
  function WaitForInsertFixed(content: string, isTask: bool, d: DateTime, tpl: Composition, anchor: string,
                              note: string, path: string): (c: Created)
    ensures c.memo.memoType == (if isTask then TaskTodo else Journal)
    ensures c.memo.createdAt == c.memo.updatedAt && c.memo.content == content && c.memo.hasId == ""
  {
    var r := InsertAfter(anchor, NewEvent(tpl, isTask, HourMinute(d), content), note);
    Created(r.content, InsertedMemo(content, isTask, d, path, LineNumIntended(r, |Split(note, '\n')|)))
  }

  /** The new note holds the new line at the index the corrected id ends in,
      and the two versions agree except when the line is appended through
      `posNum` -1, where the written id is two past the line. */
  lemma WaitForInsertLine(content: string, isTask: bool, d: DateTime, tpl: Composition, anchor: string,
                          note: string, path: string)
    ensures var ev := NewEvent(tpl, isTask, HourMinute(d), content);
      var r := InsertAfter(anchor, ev, note);
      var k := LineNumIntended(r, |Split(note, '\n')|);
      var fixed := WaitForInsertFixed(content, isTask, d, tpl, anchor, note, path);
      var written := WaitForInsert(content, isTask, d, tpl, anchor, note, path);
      k < |Split(fixed.note, '\n')| && Split(fixed.note, '\n')[k] == ev
      && fixed.memo.id == CompactMinute(d) + "00" + NatToString(k)
      && fixed.note == written.note
      && (r.posNum != -1 ==> written.memo == fixed.memo)
      && (r.posNum == -1 ==> written.memo.id == CompactMinute(d) + "00" + NatToString(k + 2))
  {
    var ev := NewEvent(tpl, isTask, HourMinute(d), content);
    var r := InsertAfter(anchor, ev, note);
    var lines := Split(note, '\n');
    var k := InsertedAt(r.posNum, |lines|);
    NewLineAtIndex(ev, anchor, note, content, isTask, d, tpl);
    WaitForInsertForms(content, isTask, d, tpl, anchor, note, path);
    WrittenLineNum(r, lines, ev, k);
  }

  /** The new line sits at the index the corrected id ends in. */
  lemma NewLineAtIndex(ev: string, anchor: string, note: string, content: string, isTask: bool, d: DateTime,
                       tpl: Composition)
    requires ev == NewEvent(tpl, isTask, HourMinute(d), content)
    ensures var r := InsertAfter(anchor, ev, note);
      var lines := Split(note, '\n');
      var k := InsertedAt(r.posNum, |lines|);
      k <= |lines| && Split(r.content, '\n') == lines[..k] + [ev] + lines[k..]
      && k < |Split(r.content, '\n')| && Split(r.content, '\n')[k] == ev
  {
    NewEventShape(tpl, isTask, d, content);
    SplitFree(ev, '\n');
    InsertAfterLines(anchor, ev, note);
    var r := InsertAfter(anchor, ev, note);
    var lines := Split(note, '\n');
    InsertedLine(lines, ev, InsertedAt(r.posNum, |lines|));
  }

  /** The line number as written: the intended one, or two more when the
      text was appended. */
  lemma WrittenLineNum(r: Inserted, lines: seq<string>, ev: string, k: nat)
    requires r.posNum >= -1 && k == InsertedAt(r.posNum, |lines|) && k <= |lines|
    requires Split(r.content, '\n') == lines[..k] + [ev] + lines[k..]
    ensures LineNumAsWritten(r) == if r.posNum == -1 then k + 2 else k
  {
    if r.posNum == -1 {
      assert |Split(r.content, '\n')| == |lines| + 1;
      assert |SplitCrLf(r.content)| == |lines| + 1;
    }
  }

  /** The two versions differ only in the line number of the record. */
  lemma WaitForInsertForms(content: string, isTask: bool, d: DateTime, tpl: Composition, anchor: string,
                           note: string, path: string)
    ensures var r := InsertAfter(anchor, NewEvent(tpl, isTask, HourMinute(d), content), note);
      WaitForInsert(content, isTask, d, tpl, anchor, note, path)
        == Created(r.content, InsertedMemo(content, isTask, d, path, LineNumAsWritten(r)))
      && WaitForInsertFixed(content, isTask, d, tpl, anchor, note, path)
        == Created(r.content, InsertedMemo(content, isTask, d, path, LineNumIntended(r, |Split(note, '\n')|)))
  {
  }

  /** The line put in at index `k` is found there. */
  lemma InsertedLine(lines: seq<string>, ev: string, k: nat)
    requires k <= |lines|
    ensures var all := lines[..k] + [ev] + lines[k..];
      |all| == |lines| + 1 && k < |all| && all[k] == ev
  {
  }

  /** A concrete append: the anchor is missing, the first heading is line 1
      and line 0 is not blank, so `!endOfSectionIndex` sends the line to the
      end, at index 2, while the written id ends in 4. */
  const AppendNote: string := "intro\n# H"

  lemma AppendNoteLines()
    ensures Split(AppendNote, '\n') == ["intro", "# H"]
  {
    SplitFree("# H", '\n');
    SplitAfterPiece("intro", "# H", '\n');
    assert AppendNote == "intro" + "\n" + "# H";
  }

  lemma AppendNoteAnchor()
    ensures AnchorIndex(["intro", "# H"], "@@") == -1
  {
    NotContainsFirst("intro", "@@");
    NotContainsFirst("# H", "@@");
  }

  lemma AppendNoteHeading()
    ensures HeadingFrom(["intro", "# H"], 0) == 1 && !Blank("intro")
  {
    assert HashRun("# H") == 1;
    assert HashRun("intro") == 0;
    NotContainsFirst("intro", "---");
    assert !IsSpace("intro"[0]);
  }

  lemma AppendNoteInsert(formatted: string)
    ensures InsertAfter("@@", formatted, AppendNote).posNum == -1
  {
    AppendNoteLines();
    AppendNoteAnchor();
    AppendNoteHeading();
    var lines: seq<string> := ["intro", "# H"];
    assert LastNonBlank(lines, -1, 0) == Some(0);
    InsertionPointNoAnchor(lines, "@@");
  }

  lemma WaitForInsertIdMismatch(content: string, isTask: bool, d: DateTime, tpl: Composition, path: string)
    ensures var written := WaitForInsert(content, isTask, d, tpl, "@@", AppendNote, path);
      var fixed := WaitForInsertFixed(content, isTask, d, tpl, "@@", AppendNote, path);
      written.memo.id == CompactMinute(d) + "00" + NatToString(4)
      && fixed.memo.id == CompactMinute(d) + "00" + NatToString(2)
      && 2 < |Split(fixed.note, '\n')| && Split(fixed.note, '\n')[2] == NewEvent(tpl, isTask, HourMinute(d), content)
  {
    var ev := NewEvent(tpl, isTask, HourMinute(d), content);
    AppendNoteLines();
    AppendNoteInsert(ev);
    var r := InsertAfter("@@", ev, AppendNote);
    assert LineNumIntended(r, |Split(AppendNote, '\n')|) == 2;
    WaitForInsertLine(content, isTask, d, tpl, "@@", AppendNote, path);
  }

  // ---------------------------------------------------------------------------
  // createIndividualMemoFile
  // ---------------------------------------------------------------------------

  /** `.map(t => t.trim()).filter(t => t.length > 0)`. */
  function TrimmedTags(pieces: seq<string>): (tags: seq<string>)
    ensures forall k :: 0 <= k < |tags| ==> tags[k] != []
    ensures |tags| <= |pieces|
  {
    if pieces == [] then []
    else (if Trim(pieces[0]) != [] then [Trim(pieces[0])] else []) + TrimmedTags(pieces[1..])
  }

  /** The tags of the comma-separated setting. */
  function Tags(setting: string): seq<string>
  {
    TrimmedTags(Split(setting, ','))
  }

  /** `tags.map(t => '  - ' + t)`. */
  function TagLines(tags: seq<string>): (r: seq<string>)
    ensures |r| == |tags| && forall k :: 0 <= k < |r| ==> r[k] == "  - " + tags[k]
  {
    if tags == [] then [] else ["  - " + tags[0]] + TagLines(tags[1..])
  }

  /** The `type` value: `task` or `memo`. */
  function TypeWord(isTask: bool): string
  {
    if isTask then "task" else "memo"
  }

  /** The `tags` list, present only when there is a tag. */
  function TagBlock(tags: seq<string>): string
  {
    if |tags| > 0 then "\ntags:\n" + Join(TagLines(tags), "\n") else ""
  }

  /** The frontmatter block. */
  function Frontmatter(d: DateTime, isTask: bool, tags: seq<string>): string
  {
    "---\ncreated: " + Stamp(d, '-') + "\ntype: " + TypeWord(isTask) + TagBlock(tags) + "\n---\n\n"
  }

  /** The body: `<br>` back to `\n`; for a task a `- [ ] ` checkbox and every
      line after the first indented by two spaces. */
  function FileBody(content: string, isTask: bool): string
  {
    var body := ReplaceAll(content, "<br>", "\n");
    if isTask then "- [ ] " + ReplaceAll(body, "\n", "\n  ") else body
  }

  /** The outcome of `createIndividualMemoFile`: the file text and the record. */
  datatype MemoFileText = MemoFileText(text: string, memo: Memo)

  /** The frontmatter of `createIndividualMemoFile`, built with `+=`. */
  method BuildFrontmatter(d: DateTime, isTask: bool, tags: seq<string>) returns (frontmatter: string)
    ensures frontmatter == Frontmatter(d, isTask, tags)
  {
    frontmatter := "---\ncreated: " + Stamp(d, '-') + "\ntype: " + (if isTask then "task" else "memo");
    ghost var head := frontmatter;
    if |tags| > 0 {
      frontmatter := frontmatter + "\ntags:\n" + Join(TagLines(tags), "\n");
      AppendAssoc(head, "\ntags:\n", Join(TagLines(tags), "\n"));
      assert frontmatter == head + TagBlock(tags);
    } else {
      assert TagBlock(tags) == [];
      assert frontmatter == head + TagBlock(tags);
    }
    frontmatter := frontmatter + "\n---\n\n";
  }

  /** `createIndividualMemoFile`. `path` is the path of the file the vault
      creates. */
  method CreateIndividualMemoFile(content: string, isTask: bool, d: DateTime, tagSetting: string, path: string)
    returns (r: MemoFileText)
    ensures r.text == Frontmatter(d, isTask, Tags(tagSetting)) + FileBody(content, isTask)
    ensures r.memo == Memo(CompactSecond(d) + "001", content, Stamp(d, '/'), Stamp(d, '/'),
                           if isTask then TaskTodo else Journal, "", path)
  {
    var tags := Tags(tagSetting);
    var frontmatter := BuildFrontmatter(d, isTask, tags);
    var withNewlines := ReplaceAll(content, "<br>", "\n");
    var fileContent;
    if isTask {
      fileContent := frontmatter + "- [ ] " + ReplaceAll(withNewlines, "\n", "\n  ");
      AppendAssoc(frontmatter, "- [ ] ", ReplaceAll(withNewlines, "\n", "\n  "));
    } else {
      fileContent := frontmatter + withNewlines;
    }
    r := MemoFileText(fileContent, Memo(CompactSecond(d) + "001", content, Stamp(d, '/'), Stamp(d, '/'),
                                        if isTask then TaskTodo else Journal, "", path));
  }

  /** A tag as the setting yields it: trimmed, non-empty and free of commas. */
  predicate CleanTag(t: string)
  {
    t != [] && ',' !in t && Trim(t) == t
  }

  lemma TrimClean(s: string)
    requires ',' !in s && Trim(s) != []
    ensures CleanTag(Trim(s))
  {
    TrimIdempotent(s);
    TrimSub(s);
  }

  /** Every tag of comma-free pieces is clean. */
  lemma {:induction false} TrimmedTagsClean(pieces: seq<string>)
    requires forall k :: 0 <= k < |pieces| ==> ',' !in pieces[k]
    ensures forall t :: t in TrimmedTags(pieces) ==> CleanTag(t)
  {
    if pieces != [] {
      assert forall k :: 0 <= k < |pieces[1..]| ==> pieces[1..][k] == pieces[k + 1];
      TrimmedTagsClean(pieces[1..]);
      if Trim(pieces[0]) != [] {
        TrimClean(pieces[0]);
      }
    }
  }
}
