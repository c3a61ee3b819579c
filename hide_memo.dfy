/** Hiding a memo of a daily note: the id names a line by its index, and that
    line's text is cut out of the note together with one line ending. */
module HideMemo {
  import opened Text
  import opened Timestamp
  import opened Memos
  import GetMemos

  // ---------------------------------------------------------------------------
  // From the id to the line
  // ---------------------------------------------------------------------------

  /** `/\d{14,}/.test(memoid)`: somewhere the id holds fourteen digits in a row. */
  predicate HasDigitRun(memoid: string)
  {
    exists i | 0 <= i <= |memoid| - 14 :: DigitRunAt(memoid, i)
  }

  /** Fourteen digits start at index `i`. */
  predicate DigitRunAt(s: string, i: nat)
  {
    i + 14 <= |s| && AllDigits(s[i..i + 14])
  }

  /** `s.slice(n)`: empty when `s` is shorter. */
  function Drop(s: string, n: nat): (r: string)
    ensures |r| == if n <= |s| then |s| - n else 0
  {
    if n <= |s| then s[n..] else ""
  }

  /** `parseInt(memoid.slice(14))`: the line index the id ends in, `None` for NaN. */
  function LineIndex(memoid: string): Option<int>
  {
    ParseInt(Drop(memoid, 14))
  }

  /** `extractContentfromText(line)` as it is printed: group 8 of the bullet
      pattern, or `undefined` when the line does not match. */
  function Shown(text: Option<string>): string
  {
    match text
    case Some(t) => t
    case None => "undefined"
  }

  // ---------------------------------------------------------------------------
  // The removal pattern
  // ---------------------------------------------------------------------------

  /** The characters the class `[.*+?^${}()|[\]\\]` prefixes with a backslash:
      every regular-expression syntax character. */
  predicate Metachar(c: char)
  {
    c in ".*+?^${}()|[]\\"
  }

  /** `line.replace(/[.*+?^${}()|[\]\\]/g, '\\$&')`. */
  function EscapeLine(line: string): (r: string)
    ensures |r| >= |line|
  {
    if line == [] then ""
    else (if Metachar(line[0]) then ['\\', line[0]] else [line[0]]) + EscapeLine(line[1..])
  }

  /** A pattern of single-character atoms: a character that is not a
      metacharacter, or a backslash and a metacharacter. */
  predicate Literal(p: string)
    decreases |p|
  {
    if p == [] then true
    else if p[0] == '\\' then |p| >= 2 && Metachar(p[1]) && Literal(p[2..])
    else !Metachar(p[0]) && Literal(p[1..])
  }

  /** The one text a literal pattern matches. */
  function Unescape(p: string): string
    requires Literal(p)
    decreases |p|
  {
    if p == [] then ""
    else if p[0] == '\\' then [p[1]] + Unescape(p[2..])
    else [p[0]] + Unescape(p[1..])
  }

  /** The escaped line is a literal pattern for exactly the line, so
      `escaped + '\\r?\\n?'` matches the line, then an optional `\r`, then an
      optional `\n`. */
  lemma {:induction false} EscapeLineLiteral(line: string)
    ensures Literal(EscapeLine(line)) && Unescape(EscapeLine(line)) == line
  {
    if line != [] {
      EscapeLineLiteral(line[1..]);
      var r := EscapeLine(line);
      if Metachar(line[0]) {
        assert r[2..] == EscapeLine(line[1..]);
      } else {
        assert r[1..] == EscapeLine(line[1..]);
      }
      assert [line[0]] + line[1..] == line;
    }
  }

  /** Where the match of `\r?\n?` starting at `e` ends: both parts greedy. */
  function LineEndingEnd(s: string, e: nat): (r: nat)
    requires e <= |s|
    ensures e <= r <= |s| && r <= e + 2
    ensures forall j :: e <= j < r ==> s[j] == '\r' || s[j] == '\n'
  {
    var e1 := if e < |s| && s[e] == '\r' then e + 1 else e;
    if e1 < |s| && s[e1] == '\n' then e1 + 1 else e1
  }

  /** `fileContent.replace(lineWithNewline, '')`: the leftmost occurrence of the
      line and the line ending after it are cut; without one nothing changes. */
  function RemoveFirstMatch(s: string, line: string): string
  {
    var i := IndexOf(s, line);
    if i < 0 then s else s[..i] + s[LineEndingEnd(s, i + |line|)..]
  }

  /** The text after the regular-expression removal and the fallbacks, each
      tried only while the text is still unchanged: the line with `\n`, the
      line with `\r\n`, the bare line. */
  function HideText(s: string, line: string): string
  {
    var r := RemoveFirstMatch(s, line);
    if r != s then r
    else
      var r1 := ReplaceFirst(s, line + "\n", "");
      var r2 := if r1 == s then ReplaceFirst(s, line + "\r\n", "") else r1;
      if r2 == s then ReplaceFirst(s, line, "") else r2
  }

  // ---------------------------------------------------------------------------
  // obHideMemo
  // ---------------------------------------------------------------------------

  /** What `obHideMemo` does: nothing for an id without a digit run; a
      `TypeError` from `undefined.replace` when the index names no line; else
      the new note text it writes and the line it passes on to the delete
      note. */
  datatype Hidden = NotAnId | LineMissing | Hidden(newContent: string, originalLine: string)

  /** The outcome for the id `memoid` on the daily note with text `note`. */
  function Hide(memoid: string, note: string, tpl: Composition): (h: Hidden)
    ensures h.NotAnId? <==> !HasDigitRun(memoid)
    ensures h.LineMissing? <==>
      (HasDigitRun(memoid) && (LineIndex(memoid).None? || !(0 <= LineIndex(memoid).value < |SplitCrLf(note)|)))
  {
    if !HasDigitRun(memoid) then NotAnId
    else
      var lines := SplitCrLf(note);
      var n := LineIndex(memoid);
      if n.None? || n.value < 0 || n.value >= |lines| then LineMissing
      else
        var line := lines[n.value];
        Hidden(HideText(note, line), "- " + memoid + " " + Shown(GetMemos.ExtractText(line, tpl)))
  }

  /** `obHideMemo`, threading `newFileContent` through the fallback chain. */
  method ObHideMemo(memoid: string, fileContent: string, tpl: Composition) returns (h: Hidden)
    ensures h == Hide(memoid, fileContent, tpl)
  {
    if !HasDigitRun(memoid) {
      return NotAnId;
    }
    var idString := LineIndex(memoid);
    var fileLines := SplitCrLf(fileContent);
    if idString.None? || idString.value < 0 || idString.value >= |fileLines| {
      return LineMissing;
    }
    var content := Shown(GetMemos.ExtractText(fileLines[idString.value], tpl));
    var originalLine := "- " + memoid + " " + content;
    var lineToRemove := fileLines[idString.value];
    var newFileContent := RemoveFirstMatch(fileContent, lineToRemove);
    if newFileContent == fileContent {
      newFileContent := ReplaceFirst(fileContent, lineToRemove + "\n", "");
      if newFileContent == fileContent {
        newFileContent := ReplaceFirst(fileContent, lineToRemove + "\r\n", "");
      }
      if newFileContent == fileContent {
        newFileContent := ReplaceFirst(fileContent, lineToRemove, "");
      }
    }
    h := Hidden(newFileContent, originalLine);
  }

  // ---------------------------------------------------------------------------
  // Properties
  // ---------------------------------------------------------------------------

  /** An id built for line `i` of a note (a 14-digit prefix, then the
      index) passes the digit test and gives `i` back. */
  lemma IdGivesIndex(id: string, i: nat)
    requires |id| > 14 && AllDigits(id[..14]) && id[14..] == NatToString(i)
    ensures HasDigitRun(id) && LineIndex(id) == Some(i)
  {
    assert DigitRunAt(id, 0) by {
      assert id[0..14] == id[..14];
    }
    ParseIntNatToString(i);
  }

  /** Hiding the memo read from line `i` of a note finds that line again: the
      removal works on its text, and the line passed on is the bullet, the id
      and the memo's content. */
  lemma HideParsedMemo(note: string, i: nat, tpl: Composition, fileDate: DateTime, path: string, randomId: string)
    requires fileDate.year <= 9999 && fileDate.month < 100 && fileDate.day < 100
    requires i < |SplitCrLf(note)|
    requires GetMemos.ParseLine(SplitCrLf(note)[i], i, tpl, fileDate, path, randomId).Some?
    ensures var m := GetMemos.ParseLine(SplitCrLf(note)[i], i, tpl, fileDate, path, randomId).value;
      Hide(m.id, note, tpl) == Hidden(HideText(note, SplitCrLf(note)[i]), "- " + m.id + " " + m.content)
  {
    var line := SplitCrLf(note)[i];
    GetMemos.ParseLineId(line, i, tpl, fileDate, path, randomId);
    var m := GetMemos.ParseLine(line, i, tpl, fileDate, path, randomId).value;
    IdGivesIndex(m.id, i);
  }

  /** A non-empty line that occurs is cut at its first occurrence, together
      with up to two line-ending characters after it; the text before and
      after is kept and the fallbacks are not used. */
  lemma HideTextFirstOccurrence(s: string, line: string)
    requires line != [] && Contains(s, line)
    ensures var i := IndexOf(s, line);
      var e := LineEndingEnd(s, i + |line|);
      0 <= i && At(s, line, i) && (forall j :: 0 <= j < i ==> !At(s, line, j))
      && HideText(s, line) == s[..i] + s[e..]
      && |s| - |line| - 2 <= |HideText(s, line)| <= |s| - |line|
  {
    var i := IndexOf(s, line);
    var e := LineEndingEnd(s, i + |line|);
    assert |s[..i] + s[e..]| < |s|;
  }

  /** The regular-expression removal leaves the text unchanged exactly when
      the line does not occur, or is empty and the text does not start with
      a line-ending character. */
  lemma RemoveFirstMatchUnchanged(s: string, line: string)
    ensures RemoveFirstMatch(s, line) == s <==>
      !Contains(s, line) || (line == [] && (s == [] || (s[0] != '\r' && s[0] != '\n')))
  {
    var i := IndexOf(s, line);
    if i < 0 {
      assert !Contains(s, line) && RemoveFirstMatch(s, line) == s;
    } else {
      assert line == [] ==> i == 0;
      assert Contains(s, line);
      CutUnchanged(s, line, i, RemoveFirstMatch(s, line));
    }
  }

  /** Cutting an occurrence with its line ending leaves the text as it was
      exactly when the occurrence is empty and no line ending follows it. */
  lemma CutUnchanged(s: string, line: string, i: nat, r: string)
    requires i + |line| <= |s| && (line == [] ==> i == 0)
    requires r == s[..i] + s[LineEndingEnd(s, i + |line|)..]
    ensures r == s <==> line == [] && (s == [] || (s[0] != '\r' && s[0] != '\n'))
  {
    var e := LineEndingEnd(s, i + |line|);
    if line == [] && (s == [] || (s[0] != '\r' && s[0] != '\n')) {
      assert e == 0;
    } else {
      assert e > i;
      assert |r| < |s|;
    }
  }

  /** Replacing an occurrence by nothing shortens the text by the pattern. */
  lemma ReplaceFirstShrinks(s: string, p: string)
    ensures p != [] && Contains(s, p) ==> |ReplaceFirst(s, p, "")| == |s| - |p|
  {
  }

  /** A `\r\n` holds a `\n`. */
  lemma CrLfHasLf(s: string)
    ensures Contains(s, "\r\n") ==> Contains(s, "\n")
  {
    if Contains(s, "\r\n") {
      var j := IndexOf(s, "\r\n");
      assert s[j + 1..j + 2] == "\n";
      assert At(s, "\n", j + 1);
      ContainsIff(s, "\n");
    }
  }

  /** So the fallbacks only run for an empty line, and then they cut the
      first `\n` of the text, wherever it is. */
  lemma HideTextEmptyLine(s: string)
    requires s == [] || (s[0] != '\r' && s[0] != '\n')
    ensures HideText(s, "") == ReplaceFirst(s, "\n", "")
  {
    RemoveFirstMatchUnchanged(s, "");
    assert RemoveFirstMatch(s, "") == s;
    assert "" + "\n" == "\n";
    assert "" + "\r\n" == "\r\n";
    var r1 := ReplaceFirst(s, "\n", "");
    ReplaceFirstShrinks(s, "\n");
    CrLfHasLf(s);
    if !Contains(s, "\n") {
      assert r1 == s;
      assert ReplaceFirst(s, "\r\n", "") == s;
      assert ReplaceFirst(s, "", "") == s;
    }
  }

  // ---------------------------------------------------------------------------
  // Where a line sits in the text
  // ---------------------------------------------------------------------------

  /** The text before piece `n` of `xs` joined with `\n`, its separator included. */
  function Before(xs: seq<string>, n: nat): string
    requires n <= |xs|
  {
    if n == 0 then "" else Join(xs[..n], "\n") + "\n"
  }

  /** The text after piece `n`, its separator included. */
  function After(xs: seq<string>, n: nat): string
    requires n < |xs|
  {
    if n + 1 == |xs| then "" else "\n" + Join(xs[n + 1..], "\n")
  }

  /** The join of the pieces from `n` on is piece `n` and what follows it. */
  lemma JoinTail(xs: seq<string>, n: nat)
    requires n < |xs|
    ensures Join(xs[n..], "\n") == xs[n] + After(xs, n)
  {
    var tail := xs[n..];
    assert tail[0] == xs[n];
    if n + 1 < |xs| {
      assert tail[1..] == xs[n + 1..];
      assert Join(tail, "\n") == xs[n] + "\n" + Join(xs[n + 1..], "\n");
    }
  }

  /** A join is the pieces before, piece `n`, and the pieces after. */
  lemma JoinAround(xs: seq<string>, n: nat)
    requires n < |xs|
    ensures Join(xs, "\n") == Before(xs, n) + xs[n] + After(xs, n)
  {
    JoinTail(xs, n);
    if n > 0 {
      JoinSplitAt(xs, n);
      var a := Join(xs[..n], "\n");
      AppendAssoc(a + "\n", xs[n], After(xs, n));
    } else {
      assert xs[0..] == xs;
    }
  }

  /** Cutting the pieces at `n > 0` cuts the join at a separator. */
  lemma JoinSplitAt(xs: seq<string>, n: nat)
    requires 0 < n < |xs|
    ensures Join(xs, "\n") == Join(xs[..n], "\n") + "\n" + Join(xs[n..], "\n")
  {
    JoinAppend(xs[..n], xs[n..], "\n");
    assert xs[..n] + xs[n..] == xs;
  }

  /** Where line `n` of the text starts. */
  function LineStart(s: string, n: nat): (i: nat)
    requires n < |Split(s, '\n')|
    ensures i + |Split(s, '\n')[n]| <= |s|
  {
    var parts := Split(s, '\n');
    JoinSplit(s, '\n');
    JoinAround(parts, n);
    |Before(parts, n)|
  }

  /** The pieces around line `n`: the text is `s[..i]`, the piece, then a
      `\n` when the piece is not the last. */
  lemma LineAt(s: string, n: nat)
    requires n < |Split(s, '\n')|
    ensures var parts := Split(s, '\n');
      var i := LineStart(s, n);
      s[..i] == Before(parts, n) && s[i..i + |parts[n]|] == parts[n]
      && s[i + |parts[n]|..] == After(parts, n)
  {
    var parts := Split(s, '\n');
    JoinSplit(s, '\n');
    JoinAround(parts, n);
  }

  /** Every line of `/\r?\n/` splitting occurs in the text. */
  lemma LineOccurs(s: string, n: nat)
    requires n < |SplitCrLf(s)|
    ensures Contains(s, SplitCrLf(s)[n])
  {
    var parts := Split(s, '\n');
    var line := SplitCrLf(s)[n];
    var i := LineStart(s, n);
    LineAt(s, n);
    assert s[i..i + |line|] == parts[n][..|line|];
    assert At(s, line, i);
    ContainsIff(s, line);
  }

  /** Removing line `n` where it stands: the cut the code means to make. */
  function RemoveLineAt(s: string, n: nat): string
    requires n < |SplitCrLf(s)|
  {
    var i := LineStart(s, n);
    var line := SplitCrLf(s)[n];
    s[..i] + s[LineEndingEnd(s, i + |line|)..]
  }

  /** Cutting a line that is not the last takes out exactly that line: the
      pieces of the result are the others, in order. The last line has no
      line ending after it, so cutting it keeps the `\n` before it and the
      result ends in one empty line (or is empty for a one-line text). */
  lemma RemoveLineAtLines(s: string, n: nat)
    requires n < |Split(s, '\n')|
    ensures var parts := Split(s, '\n');
      var r := RemoveLineAt(s, n);
      (n + 1 < |parts| ==> Split(r, '\n') == parts[..n] + parts[n + 1..])
      && (n + 1 == |parts| ==>
            r == s[..LineStart(s, n)] && Split(r, '\n') == (if n == 0 then [""] else parts[..n] + [""]))
  {
    var parts := Split(s, '\n');
    var r := RemoveLineAt(s, n);
    SplitPiecesFree(s, '\n');
    if n + 1 < |parts| {
      RemoveLineAtJoin(s, n, parts, LineStart(s, n), SplitCrLf(s)[n], r);
      SplitWithout(parts, n, r);
    } else {
      var i := LineStart(s, n);
      LastLineCut(s, n, parts, i, parts[n], SplitCrLf(s)[n]);
      RemoveLineAtCut(s, n);
      assert r == s[..i];
      if n > 0 {
        SplitTrailing(parts[..n]);
      }
    }
  }

  /** The last line has no line ending after it: the cut keeps all the text
      before the line. */
  lemma LastLineCut(s: string, n: nat, parts: seq<string>, i: nat, p: string, q: string)
    requires parts == Split(s, '\n') && n + 1 == |parts| && n < |SplitCrLf(s)|
    requires i == LineStart(s, n) && p == parts[n] && q == SplitCrLf(s)[n]
    ensures i + |q| == |s| && LineEndingEnd(s, i + |q|) == |s|
    ensures s[..i] == Before(parts, n)
  {
    LineAt(s, n);
    assert q == p;
  }

  /** Splitting newline-free lines joined with a trailing `\n` gives them
      and one empty line. */
  lemma SplitTrailing(xs: seq<string>)
    requires |xs| >= 1 && forall k :: 0 <= k < |xs| ==> '\n' !in xs[k]
    ensures Split(Join(xs, "\n") + "\n", '\n') == xs + [""]
  {
    var ys := xs + [""];
    var e: seq<string> := [""];
    assert Join(e, "\n") == "";
    JoinAppend(xs, e, "\n");
    assert Join(ys, "\n") == Join(xs, "\n") + "\n";
    forall k | 0 <= k < |ys| ensures '\n' !in ys[k] {
      if k < |xs| {
        assert ys[k] == xs[k];
      }
    }
    SplitJoin(ys, '\n');
  }

  /** What cutting line `n` leaves, in terms of the pieces around it. */
  lemma RemoveLineAtJoin(s: string, n: nat, parts: seq<string>, i: nat, q: string, r: string)
    requires parts == Split(s, '\n') && n + 1 < |parts| && n < |SplitCrLf(s)|
    requires i == LineStart(s, n) && q == SplitCrLf(s)[n] && r == RemoveLineAt(s, n)
    ensures r == Before(parts, n) + Join(parts[n + 1..], "\n")
  {
    LineCut(s, n, parts, i, parts[n], q);
    RemoveLineAtCut(s, n);
  }

  /** Joining the pieces around piece `n` and splitting again gives the
      pieces without piece `n`. */
  lemma SplitWithout(parts: seq<string>, n: nat, r: string)
    requires n + 1 < |parts| && forall k :: 0 <= k < |parts| ==> '\n' !in parts[k]
    requires r == Before(parts, n) + Join(parts[n + 1..], "\n")
    ensures Split(r, '\n') == parts[..n] + parts[n + 1..]
  {
    var rest := parts[..n] + parts[n + 1..];
    JoinWithout(parts, n, r);
    WithoutFree(parts, n);
    SplitJoin(rest, '\n');
  }

  /** Leaving out a piece keeps every piece free of `\n`. */
  lemma WithoutFree(xs: seq<string>, n: nat)
    requires n < |xs| && forall k :: 0 <= k < |xs| ==> '\n' !in xs[k]
    ensures var ys := xs[..n] + xs[n + 1..]; forall k :: 0 <= k < |ys| ==> '\n' !in ys[k]
  {
    var ys := xs[..n] + xs[n + 1..];
    forall k | 0 <= k < |ys| ensures '\n' !in ys[k] {
      if k < n {
        assert ys[k] == xs[k];
      } else {
        assert ys[k] == xs[k + 1];
      }
    }
  }

  /** A line that is not the last ends in `\n` (after a possible `\r`), and
      the cut around it leaves the text before and after it. */
  lemma LineCut(s: string, n: nat, parts: seq<string>, i: nat, p: string, q: string)
    requires parts == Split(s, '\n') && n + 1 < |parts| && n < |SplitCrLf(s)|
    requires i == LineStart(s, n) && p == parts[n] && q == SplitCrLf(s)[n]
    ensures i + |p| + 1 <= |s| && LineEndingEnd(s, i + |q|) == i + |p| + 1
    ensures s[..i] == Before(parts, n) && s[i + |p| + 1..] == Join(parts[n + 1..], "\n")
  {
    LineCutSides(s, n, parts, i, p);
    assert q == DropTrailingCr(p);
    CrLfEnd(s, i, p);
  }

  /** The text before piece `n` and after its `\n`, for a piece that is not
      the last. */
  lemma LineCutSides(s: string, n: nat, parts: seq<string>, i: nat, p: string)
    requires parts == Split(s, '\n') && n + 1 < |parts|
    requires i == LineStart(s, n) && p == parts[n]
    ensures i + |p| < |s| && s[i..i + |p|] == p && s[i + |p|] == '\n'
    ensures s[..i] == Before(parts, n) && s[i + |p| + 1..] == Join(parts[n + 1..], "\n")
  {
    LineAt(s, n);
    var t := s[i + |p|..];
    AfterNext(parts, n, t);
    assert t[0] == s[i + |p|];
    assert t[1..] == s[i + |p| + 1..];
  }

  /** After a piece that is not the last come a `\n` and the later pieces. */
  lemma AfterNext(xs: seq<string>, n: nat, t: string)
    requires n + 1 < |xs| && t == After(xs, n)
    ensures |t| >= 1 && t[0] == '\n' && t[1..] == Join(xs[n + 1..], "\n")
  {
  }

  /** A piece followed by `\n`: the line ending after the piece without its
      trailing `\r` reaches just past the `\n`. */
  lemma CrLfEnd(s: string, i: nat, p: string)
    requires i + |p| < |s| && s[i..i + |p|] == p && s[i + |p|] == '\n'
    ensures LineEndingEnd(s, i + |DropTrailingCr(p)|) == i + |p| + 1
  {
    if |p| > 0 && p[|p| - 1] == '\r' {
      assert s[i + |p| - 1] == s[i..i + |p|][|p| - 1];
    }
  }

  /** The pieces before `n` and after it join to the join without piece `n`. */
  lemma JoinWithout(xs: seq<string>, n: nat, r: string)
    requires n + 1 < |xs| && r == Before(xs, n) + Join(xs[n + 1..], "\n")
    ensures r == Join(xs[..n] + xs[n + 1..], "\n")
  {
    if n == 0 {
      assert xs[..0] + xs[1..] == xs[1..];
    } else {
      JoinAppend(xs[..n], xs[n + 1..], "\n");
    }
  }

  /** When the first occurrence of the line is the line itself, the code
      makes that cut. */
  lemma HideTextAtOwnLine(s: string, n: nat)
    requires n < |SplitCrLf(s)| && SplitCrLf(s)[n] != []
    requires IndexOf(s, SplitCrLf(s)[n]) == LineStart(s, n)
    ensures HideText(s, SplitCrLf(s)[n]) == RemoveLineAt(s, n)
  {
    var line := SplitCrLf(s)[n];
    LineOccurs(s, n);
    RemoveLineAtCut(s, n);
    HideTextCut(s, line, LineStart(s, n), RemoveLineAt(s, n));
  }

  /** Where the line occurs, the hide cuts at its first occurrence. */
  lemma HideTextCut(s: string, line: string, i: int, r: string)
    requires line != [] && Contains(s, line) && i == IndexOf(s, line)
    requires i + |line| <= |s| && r == s[..i] + s[LineEndingEnd(s, i + |line|)..]
    ensures HideText(s, line) == r
  {
    HideTextFirstOccurrence(s, line);
  }

  /** The cut `RemoveLineAt` makes, from the line's start to the end of its
      line ending. */
  lemma RemoveLineAtCut(s: string, n: nat)
    requires n < |SplitCrLf(s)|
    ensures var i := LineStart(s, n);
      RemoveLineAt(s, n) == s[..i] + s[LineEndingEnd(s, i + |SplitCrLf(s)[n]|)..]
  {
  }

  /** A note whose line 1 is the start of line 0. */
  const TwoBullets: string := "- 9:00 ab" + "\n" + "- 9:00 a"

  lemma TwoBulletsPieces()
    ensures Split(TwoBullets, '\n') == ["- 9:00 ab", "- 9:00 a"]
  {
    SplitFree("- 9:00 a", '\n');
    SplitAfterPiece("- 9:00 ab", "- 9:00 a", '\n');
  }

  lemma TwoBulletsLines()
    ensures Split(TwoBullets, '\n') == ["- 9:00 ab", "- 9:00 a"]
    ensures SplitCrLf(TwoBullets) == ["- 9:00 ab", "- 9:00 a"]
  {
    TwoBulletsPieces();
    assert DropTrailingCr("- 9:00 ab") == "- 9:00 ab";
  }

  /** Line 1 first occurs at index 0, inside line 0, and is followed by `b`. */
  lemma TwoBulletsFirstMatch()
    ensures IndexOf(TwoBullets, "- 9:00 a") == 0 && LineEndingEnd(TwoBullets, 8) == 8
  {
    assert TwoBullets[0..8] == "- 9:00 a";
    assert At(TwoBullets, "- 9:00 a", 0);
    assert TwoBullets[8] == 'b';
  }

  /** Line 1 starts at index 10 and ends the note. */
  lemma TwoBulletsLineStart()
    ensures |Split(TwoBullets, '\n')| == 2 && LineStart(TwoBullets, 1) == 10
  {
    TwoBulletsLines();
    var parts := Split(TwoBullets, '\n');
    assert parts[..1] == ["- 9:00 ab"];
  }

  /** Hiding line 1 cuts the front of line 0 and leaves line 1 in place,
      where cutting line 1 where it stands leaves line 0 whole. */
  lemma HideHitsEarlierLine()
    ensures HideText(TwoBullets, "- 9:00 a") == "b\n- 9:00 a"
    ensures |SplitCrLf(TwoBullets)| == 2 && SplitCrLf(TwoBullets)[1] == "- 9:00 a"
    ensures RemoveLineAt(TwoBullets, 1) == "- 9:00 ab\n"
  {
    TwoBulletsLines();
    TwoBulletsFirstMatch();
    TwoBulletsLineStart();
    assert TwoBullets[8..] == "b\n- 9:00 a";
    assert RemoveFirstMatch(TwoBullets, "- 9:00 a") == "b\n- 9:00 a";
    assert LineEndingEnd(TwoBullets, 18) == 18;
    assert TwoBullets[..10] == "- 9:00 ab\n";
  }
}
