/** String primitives with the JavaScript semantics the memo text engine relies on:
    the `\s` and line-terminator character sets, `indexOf`, `split` on a character
    and on `/\r?\n/`, `join`, `trim`, global literal `replace`, the `$` patterns of
    a replacement string, decimal formatting and `parseInt`. */
module Text {

  datatype Option<T> = None | Some(value: T)

  // ---------------------------------------------------------------------------
  // Character classes
  // ---------------------------------------------------------------------------

  /** The characters JavaScript counts as line terminators: `.` never matches
      them and, without the `m` flag, `$` matches only at the end of input. */
  predicate IsLineTerminator(c: char) {
    c == '\n' || c == '\r' || c == '\U{2028}' || c == '\U{2029}'
  }

  /** JavaScript `\s`: white space and line terminators. It is also the set that
      `String.prototype.trim` and `parseInt` skip. */
  predicate IsSpace(c: char) {
    IsLineTerminator(c) || c == ' ' || c == '\t' || c == '\U{000B}' || c == '\U{000C}'
    || c == '\U{00A0}' || c == '\U{1680}' || ('\U{2000}' <= c <= '\U{200A}')
    || c == '\U{202F}' || c == '\U{205F}' || c == '\U{3000}' || c == '\U{FEFF}'
  }

  predicate IsDigit(c: char) {
    '0' <= c <= '9'
  }

  predicate NoLineTerminator(s: string) {
    forall i :: 0 <= i < |s| ==> !IsLineTerminator(s[i])
  }

  predicate AllSpace(s: string) {
    forall i :: 0 <= i < |s| ==> IsSpace(s[i])
  }

  predicate AllDigits(s: string) {
    forall i :: 0 <= i < |s| ==> IsDigit(s[i])
  }

  // ---------------------------------------------------------------------------
  // Searching
  // ---------------------------------------------------------------------------

  predicate StartsWith(s: string, p: string) {
    |p| <= |s| && s[..|p|] == p
  }

  /** `p` occurs in `s` at index `i`. */
  predicate At(s: string, p: string, i: int) {
    0 <= i && i + |p| <= |s| && s[i..i + |p|] == p
  }

  /** `s.indexOf(p, from)`: the first occurrence at or after `from`, or -1. */
  function IndexOfFrom(s: string, p: string, from: nat): (r: int)
    ensures r == -1 || (from <= r && At(s, p, r))
    ensures forall i :: from <= i && (r == -1 || i < r) ==> !At(s, p, i)
    decreases |s| - from
  {
    if from + |p| > |s| then -1
    else if s[from..from + |p|] == p then from
    else IndexOfFrom(s, p, from + 1)
  }

  function IndexOf(s: string, p: string): int {
    IndexOfFrom(s, p, 0)
  }

  /** `s.includes(p)` (Obsidian's `String.prototype.contains`). */
  predicate Contains(s: string, p: string) {
    IndexOf(s, p) >= 0
  }

  lemma ContainsIff(s: string, p: string)
    ensures Contains(s, p) <==> exists i :: At(s, p, i)
  {
  }

  /** A pattern whose first character is absent does not occur. */
  lemma NotContainsFirst(s: string, p: string)
    requires p != [] && p[0] !in s
    ensures !Contains(s, p)
  {
  }

  /** An occurrence of `p` inside a piece of `s` is an occurrence in `s`. */
  lemma ContainsInfix(s: string, p: string, lo: nat, hi: nat)
    requires lo <= hi <= |s|
    requires Contains(s[lo..hi], p)
    ensures Contains(s, p)
  {
    var i := IndexOf(s[lo..hi], p);
    assert s[lo + i..lo + i + |p|] == s[lo..hi][i..i + |p|];
    assert At(s, p, lo + i);
  }

  // ---------------------------------------------------------------------------
  // Splitting and joining
  // ---------------------------------------------------------------------------

  /** `s.split(sep)` for a one-character separator. */
  function Split(s: string, sep: char): (r: seq<string>)
    ensures |r| >= 1
    decreases |s|
  {
    if s == [] then [""]
    else
      var rest := Split(s[1..], sep);
      if s[0] == sep then [""] + rest
      else [[s[0]] + rest[0]] + rest[1..]
  }

  lemma AppendAssoc(a: string, b: string, c: string)
    ensures a + b + c == a + (b + c)
  {
  }

  /** `xs.join(sep)`. */
  function Join(xs: seq<string>, sep: string): string
  {
    if |xs| == 0 then ""
    else if |xs| == 1 then xs[0]
    else xs[0] + sep + Join(xs[1..], sep)
  }

  function CountChar(s: string, c: char): nat
  {
    if s == [] then 0 else (if s[0] == c then 1 else 0) + CountChar(s[1..], c)
  }

  /** Joining the pieces with the separator gives back the input. */
  lemma {:induction false} JoinSplit(s: string, sep: char)
    ensures Join(Split(s, sep), [sep]) == s
  {
    if s != [] {
      JoinSplit(s[1..], sep);
      var rest := Split(s[1..], sep);
      if s[0] == sep {
        assert ([""] + rest)[1..] == rest;
      } else if |rest| == 1 {
      } else {
        assert ([[s[0]] + rest[0]] + rest[1..])[1..] == rest[1..];
      }
    }
  }

  /** No piece contains the separator. */
  lemma {:induction false} SplitPiecesFree(s: string, sep: char)
    ensures forall k :: 0 <= k < |Split(s, sep)| ==> sep !in Split(s, sep)[k]
  {
    if s != [] {
      SplitPiecesFree(s[1..], sep);
    }
  }

  /** There is one piece more than there are separators. */
  lemma {:induction false} SplitCount(s: string, sep: char)
    ensures |Split(s, sep)| == CountChar(s, sep) + 1
  {
    if s != [] {
      SplitCount(s[1..], sep);
    }
  }

  /** A character absent from `s` is absent from every piece. */
  lemma {:induction false} SplitKeepsAbsent(s: string, sep: char, c: char)
    requires c !in s
    ensures forall k :: 0 <= k < |Split(s, sep)| ==> c !in Split(s, sep)[k]
  {
    if s != [] {
      SplitKeepsAbsent(s[1..], sep, c);
    }
  }

  lemma {:induction false} SplitFree(a: string, sep: char)
    requires sep !in a
    ensures Split(a, sep) == [a]
  {
    if a != [] {
      SplitFree(a[1..], sep);
      assert [a[0]] + a[1..] == a;
    }
  }

  lemma {:induction false} SplitAfterPiece(a: string, b: string, sep: char)
    requires sep !in a
    ensures Split(a + [sep] + b, sep) == [a] + Split(b, sep)
  {
    if a == [] {
      assert (a + [sep] + b)[1..] == b;
    } else {
      assert (a + [sep] + b)[1..] == a[1..] + [sep] + b;
      SplitAfterPiece(a[1..], b, sep);
      assert [a[0]] + a[1..] == a;
    }
  }

  /** A separator between two texts splits into the pieces of each. */
  lemma SplitAround(a: string, b: string, sep: char)
    ensures Split(a + [sep] + b, sep) == Split(a, sep) + Split(b, sep)
  {
    var xs, ys := Split(a, sep), Split(b, sep);
    var zs := xs + ys;
    JoinSplit(a, sep);
    JoinSplit(b, sep);
    JoinAppend(xs, ys, [sep]);
    assert Join(zs, [sep]) == a + [sep] + b;
    SplitPiecesFree(a, sep);
    SplitPiecesFree(b, sep);
    forall k | 0 <= k < |zs|
      ensures sep !in zs[k]
    {
      if k < |xs| {
        assert zs[k] == xs[k];
      } else {
        assert zs[k] == ys[k - |xs|];
      }
    }
    SplitJoin(zs, sep);
  }

  /** Splitting a join of separator-free pieces gives the pieces back. */
  lemma {:induction false} SplitJoin(xs: seq<string>, sep: char)
    requires |xs| >= 1
    requires forall k :: 0 <= k < |xs| ==> sep !in xs[k]
    ensures Split(Join(xs, [sep]), sep) == xs
  {
    if |xs| == 1 {
      SplitFree(xs[0], sep);
    } else {
      var tail := xs[1..];
      forall k | 0 <= k < |tail| ensures sep !in tail[k] {
        assert tail[k] == xs[k + 1];
      }
      SplitJoin(tail, sep);
      assert sep !in xs[0];
      SplitAfterPiece(xs[0], Join(tail, [sep]), sep);
      assert Join(xs, [sep]) == xs[0] + [sep] + Join(tail, [sep]);
      assert [xs[0]] + tail == xs;
    }
  }

  lemma {:induction false} JoinAppend(xs: seq<string>, ys: seq<string>, sep: string)
    requires |xs| >= 1 && |ys| >= 1
    ensures Join(xs + ys, sep) == Join(xs, sep) + sep + Join(ys, sep)
  {
    if |xs| == 1 {
      assert (xs + ys)[1..] == ys;
    } else {
      assert (xs + ys)[1..] == xs[1..] + ys;
      JoinAppend(xs[1..], ys, sep);
    }
  }

  function DropTrailingCr(x: string): string
  {
    if |x| > 0 && x[|x| - 1] == '\r' then x[..|x| - 1] else x
  }

  /** `s.split(/\r?\n/)`: the separator match starts at a `\r` right before a
      `\n`, so every piece but the last loses one trailing `\r`. */
  function SplitCrLf(s: string): (r: seq<string>)
    ensures |r| == |Split(s, '\n')|
  {
    var pieces := Split(s, '\n');
    seq(|pieces|, i requires 0 <= i < |pieces| =>
      if i < |pieces| - 1 then DropTrailingCr(pieces[i]) else pieces[i])
  }

  /** On text without `\r` the two splitters agree. */
  lemma SplitCrLfWithoutCr(s: string)
    requires '\r' !in s
    ensures SplitCrLf(s) == Split(s, '\n')
  {
    SplitKeepsAbsent(s, '\n', '\r');
    var pieces := Split(s, '\n');
    forall i | 0 <= i < |pieces| - 1
      ensures DropTrailingCr(pieces[i]) == pieces[i]
    {
      assert '\r' !in pieces[i];
    }
  }

  // ---------------------------------------------------------------------------
  // Trimming
  // ---------------------------------------------------------------------------

  /** `s.trimStart()`. */
  function TrimStart(s: string): (r: string)
    ensures |r| <= |s| && r == s[|s| - |r|..]
    ensures AllSpace(s[..|s| - |r|])
    ensures r != [] ==> !IsSpace(r[0])
  {
    if s != [] && IsSpace(s[0]) then
      var t := s[1..];
      var r := TrimStart(t);
      assert s[..|s| - |r|] == [s[0]] + t[..|t| - |r|];
      r
    else s
  }

  lemma TrimStartNonSpace(s: string)
    requires s != [] && !IsSpace(s[0])
    ensures TrimStart(s) == s
  {
  }

  /** `s.trimEnd()`. */
  function TrimEnd(s: string): (r: string)
    ensures |r| <= |s| && r == s[..|r|]
    ensures AllSpace(s[|r|..])
    ensures r != [] ==> !IsSpace(r[|r| - 1])
  {
    if s != [] && IsSpace(s[|s| - 1]) then TrimEnd(s[..|s| - 1]) else s
  }

  /** `s.trim()`. */
  function Trim(s: string): string {
    TrimEnd(TrimStart(s))
  }

  lemma TrimEndNonSpace(s: string)
    requires s != [] && !IsSpace(s[|s| - 1])
    ensures TrimEnd(s) == s
  {
  }

  /** Trimming twice is trimming once. */
  lemma TrimIdempotent(s: string)
    ensures Trim(Trim(s)) == Trim(s)
  {
    var x := Trim(s);
    if x != [] {
      assert x[0] == TrimStart(s)[0];
      TrimStartNonSpace(x);
      TrimEndNonSpace(x);
    }
  }

  /** Trimming keeps only characters of the input. */
  lemma TrimSub(s: string)
    ensures forall c :: c in Trim(s) ==> c in s
  {
    var y := TrimStart(s);
    forall c | c in Trim(s) ensures c in s {
      assert c in y;
    }
  }

  // ---------------------------------------------------------------------------
  // Replacing
  // ---------------------------------------------------------------------------

  /** `s.replace(/pat/g, rep)` for a literal `pat` and a `rep` without `$`:
      leftmost, non-overlapping, scanning on after each replaced occurrence. */
  function ReplaceAll(s: string, pat: string, rep: string): string
    requires pat != []
    decreases |s|
  {
    if |s| < |pat| then s
    else if s[..|pat|] == pat then rep + ReplaceAll(s[|pat|..], pat, rep)
    else [s[0]] + ReplaceAll(s[1..], pat, rep)
  }

  /** `s.replace(pat, rep)` with a string pattern and a `rep` without `$`: only
      the first occurrence is replaced; an empty `pat` matches at index 0. */
  function ReplaceFirst(s: string, pat: string, rep: string): string
  {
    var i := IndexOf(s, pat);
    if i < 0 then s else s[..i] + rep + s[i + |pat|..]
  }

  /** Expansion of a replacement string for a pattern without capture groups
      (GetSubstitution): `$$` is `$`, `$&` the match, `` $` `` the text before
      it, `$'` the text after it; any other `$` stays as it is. */
  function ExpandReplacement(rep: string, matched: string, before: string, after: string): string
    decreases |rep|
  {
    if rep == [] then ""
    else if rep[0] == '$' && |rep| >= 2 then
      if rep[1] == '$' then "$" + ExpandReplacement(rep[2..], matched, before, after)
      else if rep[1] == '&' then matched + ExpandReplacement(rep[2..], matched, before, after)
      else if rep[1] == '`' then before + ExpandReplacement(rep[2..], matched, before, after)
      else if rep[1] == '\'' then after + ExpandReplacement(rep[2..], matched, before, after)
      else "$" + ExpandReplacement(rep[1..], matched, before, after)
    else [rep[0]] + ExpandReplacement(rep[1..], matched, before, after)
  }

  /** A replacement string without `$` is inserted as it is. */
  lemma {:induction false} ExpandPlain(rep: string, matched: string, before: string, after: string)
    requires '$' !in rep
    ensures ExpandReplacement(rep, matched, before, after) == rep
  {
    if rep != [] {
      ExpandPlain(rep[1..], matched, before, after);
    }
  }

  /** A character in none of the inputs is absent from the expansion. */
  lemma {:induction false} ExpandAbsent(rep: string, matched: string, before: string, after: string, c: char)
    requires c != '$' && c !in rep && c !in matched && c !in before && c !in after
    ensures c !in ExpandReplacement(rep, matched, before, after)
  {
    if rep != [] {
      if rep[0] == '$' && |rep| >= 2 && rep[1] in "$&`'" {
        ExpandAbsent(rep[2..], matched, before, after, c);
      } else {
        ExpandAbsent(rep[1..], matched, before, after, c);
      }
    }
  }

  /** When the replacement brings no occurrence of `c` and `c` is a character
      of the pattern, `c` only survives where it was not part of a match. */
  lemma {:induction false} ReplaceAllRemovesChar(s: string, pat: string, rep: string, c: char)
    requires pat == [c] && c !in rep
    ensures c !in ReplaceAll(s, pat, rep)
  {
    if |s| >= |pat| {
      if s[..|pat|] == pat {
        ReplaceAllRemovesChar(s[|pat|..], pat, rep, c);
      } else {
        ReplaceAllRemovesChar(s[1..], pat, rep, c);
      }
    }
  }

  /** A character absent from both the input and the replacement is absent from the result. */
  lemma {:induction false} ReplaceAllKeepsAbsent(s: string, pat: string, rep: string, c: char)
    requires pat != [] && c !in s && c !in rep
    ensures c !in ReplaceAll(s, pat, rep)
  {
    if |s| >= |pat| {
      if s[..|pat|] == pat {
        ReplaceAllKeepsAbsent(s[|pat|..], pat, rep, c);
      } else {
        ReplaceAllKeepsAbsent(s[1..], pat, rep, c);
      }
    }
  }

  /** Without an occurrence of the pattern the text is unchanged. */
  lemma {:induction false} ReplaceAllAbsent(s: string, pat: string, rep: string)
    requires pat != [] && !Contains(s, pat)
    ensures ReplaceAll(s, pat, rep) == s
  {
    if |s| >= |pat| {
      assert !At(s, pat, 0);
      assert !Contains(s[1..], pat) by {
        if Contains(s[1..], pat) {
          var i := IndexOf(s[1..], pat);
          assert s[1 + i..1 + i + |pat|] == s[1..][i..i + |pat|];
          assert At(s, pat, 1 + i);
        }
      }
      ReplaceAllAbsent(s[1..], pat, rep);
    }
  }

  /** If the result of a replacement starts with `w`, and no character of `w`
      occurs in the (non-empty) replacement, the input starts with `w` too. */
  lemma {:induction false} ReplaceAllPrefix(t: string, pat: string, rep: string, w: string)
    requires pat != [] && rep != []
    requires forall j :: 0 <= j < |w| ==> w[j] !in rep
    requires StartsWith(ReplaceAll(t, pat, rep), w)
    ensures StartsWith(t, w)
  {
    var r := ReplaceAll(t, pat, rep);
    if w != [] && |t| >= |pat| {
      ReplaceAllHead(t, pat, rep);
      assert w[0] == r[0] && w[0] !in rep;
      assert t[..|pat|] != pat;
      var r' := ReplaceAll(t[1..], pat, rep);
      assert r == [t[0]] + r';
      assert r'[..|w| - 1] == r[1..|w|] == w[1..];
      ReplaceAllPrefix(t[1..], pat, rep, w[1..]);
      assert t[..|w|] == [t[0]] + t[1..][..|w| - 1];
    }
  }

  /** A replacement that fires at index 0 puts the first character of the
      replacement first. */
  lemma ReplaceAllHead(t: string, pat: string, rep: string)
    requires pat != [] && rep != []
    ensures |t| >= |pat| && t[..|pat|] == pat ==> ReplaceAll(t, pat, rep)[0] == rep[0]
  {
  }

  /** No occurrence of the pattern at index `i` of the result, when no
      character of the pattern occurs in the (non-empty) replacement. */
  lemma {:induction false} ReplaceAllNotAt(s: string, pat: string, rep: string, i: int)
    requires pat != [] && rep != []
    requires forall j :: 0 <= j < |pat| ==> pat[j] !in rep
    ensures !At(ReplaceAll(s, pat, rep), pat, i)
    decreases |s|
  {
    if |s| >= |pat| && s[..|pat|] == pat {
      var r' := ReplaceAll(s[|pat|..], pat, rep);
      assert ReplaceAll(s, pat, rep) == rep + r';
      if i >= |rep| {
        ReplaceAllNotAt(s[|pat|..], pat, rep, i - |rep|);
        ShiftNotAt(rep, r', pat, i);
      } else if i >= 0 {
        InsideNotAt(rep, r', pat, i);
      }
    } else if |s| >= |pat| {
      var r' := ReplaceAll(s[1..], pat, rep);
      assert ReplaceAll(s, pat, rep) == [s[0]] + r';
      if i >= 1 {
        ReplaceAllNotAt(s[1..], pat, rep, i - 1);
        ShiftNotAt([s[0]], r', pat, i);
      } else if i == 0 {
        FirstNotAt(s, pat, rep);
      }
    }
  }

  /** An occurrence past a prefix is an occurrence in what follows it. */
  lemma ShiftNotAt(a: string, b: string, pat: string, i: int)
    requires i >= |a| && !At(b, pat, i - |a|)
    ensures !At(a + b, pat, i)
  {
  }

  /** No occurrence starts inside a prefix that lacks the pattern's first
      character. */
  lemma InsideNotAt(a: string, b: string, pat: string, i: int)
    requires pat != [] && pat[0] !in a && 0 <= i < |a|
    ensures !At(a + b, pat, i)
  {
    assert (a + b)[i] == a[i];
  }

  /** Where the input does not start with the pattern, the result does not
      either. */
  lemma FirstNotAt(s: string, pat: string, rep: string)
    requires pat != [] && rep != [] && |s| >= |pat| && s[..|pat|] != pat
    requires forall j :: 0 <= j < |pat| ==> pat[j] !in rep
    ensures !At(ReplaceAll(s, pat, rep), pat, 0)
  {
    var r' := ReplaceAll(s[1..], pat, rep);
    assert ReplaceAll(s, pat, rep) == [s[0]] + r';
    var w := pat[1..];
    forall j | 0 <= j < |w|
      ensures w[j] !in rep
    {
      assert w[j] == pat[j + 1];
    }
    if StartsWith(r', w) {
      ReplaceAllPrefix(s[1..], pat, rep, w);
    }
    ConsPrefix(s, |pat|);
    ConsNotAt(s[0], r', s[1..], pat);
  }

  /** The first `n` characters: the head, then `n - 1` of the tail. */
  lemma ConsPrefix(s: string, n: nat)
    requires 0 < n <= |s|
    ensures s[..n] == [s[0]] + s[1..][..n - 1]
  {
  }

  /** `[c] + r` starts with the pattern only if `c` is its first character
      and `r` starts with the rest; here that would make `[c] + t` start with
      the pattern too. */
  lemma ConsNotAt(c: char, r: string, t: string, pat: string)
    requires pat != [] && |t| >= |pat| - 1
    requires StartsWith(r, pat[1..]) ==> StartsWith(t, pat[1..])
    requires ([c] + t)[..|pat|] != pat
    ensures !At([c] + r, pat, 0)
  {
    var w := pat[1..];
    assert ([c] + t)[..|pat|] == [c] + t[..|w|];
    assert |r| >= |w| ==> ([c] + r)[..|pat|] == [c] + r[..|w|];
  }

  /** After replacing every occurrence of a pattern none of whose characters
      the replacement contains, no occurrence is left. */
  lemma ReplaceAllLeavesNone(s: string, pat: string, rep: string)
    requires pat != [] && rep != []
    requires forall j :: 0 <= j < |pat| ==> pat[j] !in rep
    ensures !Contains(ReplaceAll(s, pat, rep), pat)
  {
    var r := ReplaceAll(s, pat, rep);
    if Contains(r, pat) {
      ReplaceAllNotAt(s, pat, rep, IndexOf(r, pat));
    }
  }

  // ---------------------------------------------------------------------------
  // Numbers
  // ---------------------------------------------------------------------------

  function DigitChar(d: nat): char
    requires d < 10
  {
    (48 + d) as char
  }

  /** `String(n)` for a natural number: decimal, no leading zeros. */
  function NatToString(n: nat): (r: string)
    ensures |r| >= 1 && AllDigits(r)
    decreases n
  {
    if n < 10 then [DigitChar(n)] else NatToString(n / 10) + [DigitChar(n % 10)]
  }

  /** Only zero is written with a leading `0`. */
  lemma NatToStringLeading(n: nat)
    ensures NatToString(n)[0] == '0' <==> n == 0
    ensures n == 0 <==> NatToString(n) == "0"
    decreases n
  {
    if n >= 10 {
      NatToStringLeading(n / 10);
    }
  }

  function DigitValue(c: char, radix: nat): Option<nat>
  {
    if '0' <= c <= '9' && (c as int) - 48 < radix then Some((c as int) - 48)
    else if radix == 16 && 'a' <= c <= 'f' then Some((c as int) - 87)
    else if radix == 16 && 'A' <= c <= 'F' then Some((c as int) - 55)
    else None
  }

  /** The length of the longest prefix of `s` made of digits of `radix`. */
  function DigitPrefixLength(s: string, radix: nat): (k: nat)
    ensures k <= |s|
    ensures forall i :: 0 <= i < k ==> DigitValue(s[i], radix).Some?
    ensures k < |s| ==> DigitValue(s[k], radix).None?
  {
    if s == [] || DigitValue(s[0], radix).None? then 0 else 1 + DigitPrefixLength(s[1..], radix)
  }

  /** The value of a string of digits of `radix`. */
  function RadixValue(s: string, radix: nat): nat
    requires forall i :: 0 <= i < |s| ==> DigitValue(s[i], radix).Some?
  {
    if s == [] then 0
    else RadixValue(s[..|s| - 1], radix) * radix + DigitValue(s[|s| - 1], radix).value
  }

  /** Reading the decimal text of `n` gives `n` back. */
  lemma {:induction false} DecimalOfNatToString(n: nat)
    ensures forall i :: 0 <= i < |NatToString(n)| ==> DigitValue(NatToString(n)[i], 10).Some?
    ensures RadixValue(NatToString(n), 10) == n
    decreases n
  {
    if n >= 10 {
      DecimalOfNatToString(n / 10);
      var s := NatToString(n);
      assert s[..|s| - 1] == NatToString(n / 10);
    }
  }

  /** Different numbers have different decimal texts. */
  lemma NatToStringInjective(a: nat, b: nat)
    requires NatToString(a) == NatToString(b)
    ensures a == b
  {
    DecimalOfNatToString(a);
    DecimalOfNatToString(b);
  }

  /** JavaScript `parseInt(s)` with no radix: leading white space, an optional
      sign, an optional `0x`/`0X` switching to base 16, then the longest run of
      digits; no digit at all gives NaN (`None`). */
  function ParseInt(s: string): Option<int>
  {
    ParseSigned(TrimStart(s))
  }

  function ParseSigned(t: string): Option<int>
  {
    if |t| > 0 && t[0] == '-' then
      match ParseUnsigned(t[1..])
      case None => None
      case Some(m) => Some(0 - m)
    else if |t| > 0 && t[0] == '+' then
      match ParseUnsigned(t[1..])
      case None => None
      case Some(m) => Some(m as int)
    else
      match ParseUnsigned(t)
      case None => None
      case Some(m) => Some(m as int)
  }

  function ParseUnsigned(u: string): Option<nat>
  {
    if |u| >= 2 && u[0] == '0' && (u[1] == 'x' || u[1] == 'X') then LeadingNumber(u[2..], 16)
    else LeadingNumber(u, 10)
  }

  /** The value of the longest prefix of digits of `radix`, or `None` when `s`
      does not start with one. */
  function LeadingNumber(s: string, radix: nat): Option<nat>
  {
    var k := DigitPrefixLength(s, radix);
    if k == 0 then None else Some(RadixValue(s[..k], radix))
  }

  /** A string made only of digits of `radix` is its own longest digit prefix. */
  lemma {:induction false} DigitPrefixAll(s: string, radix: nat)
    requires forall i :: 0 <= i < |s| ==> DigitValue(s[i], radix).Some?
    ensures DigitPrefixLength(s, radix) == |s|
  {
    if s != [] {
      DigitPrefixAll(s[1..], radix);
    }
  }

  /** Text starting with a digit has nothing for `parseInt` to skip. */
  lemma TrimStartDigit(s: string)
    requires s != [] && '0' <= s[0] <= '9'
    ensures TrimStart(s) == s
  {
    assert !IsLineTerminator(s[0]);
    assert !IsSpace(s[0]);
  }

  /** `parseInt` of a decimal text reads its value (leading zeros included). */
  lemma ParseIntOfDecimal(s: string)
    requires s != [] && forall i :: 0 <= i < |s| ==> DigitValue(s[i], 10).Some?
    ensures ParseInt(s) == Some(RadixValue(s, 10))
  {
    assert DigitValue(s[0], 10).Some?;
    TrimStartDigit(s);
    UnsignedDecimal(s);
    SignedPlain(s, RadixValue(s, 10));
  }

  /** Digits only: no `0x` switch, and every character is read. */
  lemma UnsignedDecimal(s: string)
    requires s != [] && forall i :: 0 <= i < |s| ==> DigitValue(s[i], 10).Some?
    ensures ParseUnsigned(s) == Some(RadixValue(s, 10))
  {
    assert |s| >= 2 ==> DigitValue(s[1], 10).Some? && s[1] != 'x' && s[1] != 'X';
    DigitPrefixAll(s, 10);
    assert s[..|s|] == s;
  }

  /** Without a sign, the signed reading is the unsigned one. */
  lemma SignedPlain(t: string, v: nat)
    requires |t| > 0 && t[0] != '-' && t[0] != '+' && ParseUnsigned(t) == Some(v)
    ensures ParseSigned(t) == Some(v as int)
  {
  }

  /** `parseInt(String(n)) == n`. */
  lemma ParseIntNatToString(n: nat)
    ensures ParseInt(NatToString(n)) == Some(n)
  {
    DecimalOfNatToString(n);
    NatToStringLeading(n);
    ParseIntOfDecimal(NatToString(n));
  }
}
