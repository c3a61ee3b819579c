/** Calendar timestamps as the memo engine writes and reads them: a record of
    integer fields, moment's fixed-width zero-filled tokens (`YYYY`, `MM`, `DD`,
    `HH`, `mm`, `ss`) and a strict reader for the `YYYY/MM/DD HH:mm:ss` and
    `YYYY-MM-DD HH:mm:ss` layouts. */
module Timestamp {
  import opened Text

  datatype DateTime = DateTime(year: nat, month: nat, day: nat, hour: nat, minute: nat, second: nat)

  function Pow10(w: nat): nat
  {
    if w == 0 then 1 else 10 * Pow10(w - 1)
  }

  /** moment's zero fill: `n` in decimal, left-padded with `0` to at least `w`
      digits (a wider number keeps all its digits). */
  function ZeroPad(n: nat, w: nat): (r: string)
    ensures |r| >= 1 && AllDigits(r)
    decreases n, w
  {
    if n < 10 && w <= 1 then [DigitChar(n)]
    else ZeroPad(n / 10, if w > 0 then w - 1 else 0) + [DigitChar(n % 10)]
  }

  /** A number below 10^w fills exactly `w` digits. */
  lemma {:induction false} ZeroPadWidth(n: nat, w: nat)
    requires 1 <= w && n < Pow10(w)
    ensures |ZeroPad(n, w)| == w
    decreases n, w
  {
    if !(n < 10 && w <= 1) {
      assert w >= 2;
      ZeroPadWidth(n / 10, w - 1);
    }
  }

  /** Reading the padded digits back gives the number. */
  lemma {:induction false} ZeroPadValue(n: nat, w: nat)
    ensures forall i :: 0 <= i < |ZeroPad(n, w)| ==> DigitValue(ZeroPad(n, w)[i], 10).Some?
    ensures RadixValue(ZeroPad(n, w), 10) == n
    decreases n, w
  {
    var r := ZeroPad(n, w);
    if n < 10 && w <= 1 {
      assert r == [DigitChar(n)];
      assert DigitValue(DigitChar(n), 10) == Some(n);
      assert r[..0] == [];
    } else {
      var w' := if w > 0 then w - 1 else 0;
      var q, v := n / 10, n % 10;
      ZeroPadValue(q, w');
      var init := ZeroPad(q, w');
      assert r == init + [DigitChar(v)];
      assert r[..|r| - 1] == init;
      assert DigitValue(DigitChar(v), 10) == Some(v);
      assert forall i :: 0 <= i < |init| ==> r[i] == init[i];
      assert n == q * 10 + v;
    }
  }

  /** Padding the value of a digit string to its own length gives the string
      back, leading zeros included. */
  lemma {:induction false} ZeroPadOfDigits(ds: string)
    requires |ds| >= 1 && forall i :: 0 <= i < |ds| ==> DigitValue(ds[i], 10).Some?
    ensures ZeroPad(RadixValue(ds, 10), |ds|) == ds
  {
    var init, last := ds[..|ds| - 1], ds[|ds| - 1];
    var v := DigitValue(last, 10).value;
    var r := RadixValue(init, 10);
    assert RadixValue(ds, 10) == r * 10 + v;
    LastDigit(r, v);
    assert DigitChar(v) == last;
    assert ds == init + [last];
    if |ds| > 1 {
      ZeroPadOfDigits(init);
    } else {
      assert init == [];
    }
  }

  /** Splitting off the last decimal digit. */
  lemma LastDigit(r: nat, v: nat)
    requires v < 10
    ensures (r * 10 + v) / 10 == r && (r * 10 + v) % 10 == v
    ensures r * 10 + v < 10 <==> r == 0
  {
  }

  /** A string of `w` decimal digits reads as a number below 10^w. */
  lemma {:induction false} RadixBound(ds: string)
    requires forall i :: 0 <= i < |ds| ==> DigitValue(ds[i], 10).Some?
    ensures RadixValue(ds, 10) < Pow10(|ds|)
  {
    if ds != [] {
      RadixBound(ds[..|ds| - 1]);
    }
  }

  // ---------------------------------------------------------------------------
  // Formats
  // ---------------------------------------------------------------------------

  /** `YYYY<sep>MM<sep>DD`. */
  function DatePart(d: DateTime, sep: char): string
  {
    ZeroPad(d.year, 4) + [sep] + ZeroPad(d.month, 2) + [sep] + ZeroPad(d.day, 2)
  }

  /** `HH:mm`. */
  function HourMinute(d: DateTime): string
  {
    ZeroPad(d.hour, 2) + ":" + ZeroPad(d.minute, 2)
  }

  /** `YYYY<sep>MM<sep>DD HH:mm:ss`; `sep` is `/` for the memo record fields
      and `-` for the `created:` frontmatter key. */
  function Stamp(d: DateTime, sep: char): string
  {
    DatePart(d, sep) + " " + HourMinute(d) + ":" + ZeroPad(d.second, 2)
  }

  /** `YYYYMMDDHHmm`. */
  function CompactMinute(d: DateTime): string
  {
    ZeroPad(d.year, 4) + ZeroPad(d.month, 2) + ZeroPad(d.day, 2) + ZeroPad(d.hour, 2) + ZeroPad(d.minute, 2)
  }

  /** `YYYYMMDDHHmmss`. */
  function CompactSecond(d: DateTime): string
  {
    CompactMinute(d) + ZeroPad(d.second, 2)
  }

  /** `SS` is moment's token for hundredths of a second; a daily-note date is
      the start of its day with only hours and minutes set, so it is `00`. */
  const Centiseconds: string := "00"

  /** A daily-note moment formatted with `YYYYMMDDHHmmSS`. */
  function DailyCompact(d: DateTime): string
  {
    CompactMinute(d) + Centiseconds
  }

  /** A daily-note moment formatted with `YYYY/MM/DD HH:mm:SS`. */
  function DailyStamp(d: DateTime): string
  {
    DatePart(d, '/') + " " + HourMinute(d) + ":" + Centiseconds
  }

  /** The fixed-width formats have fixed widths for four-digit years and
      two-digit fields. */
  lemma FormatWidths(d: DateTime)
    requires d.year < 10000 && d.month < 100 && d.day < 100 && d.hour < 100 && d.minute < 100 && d.second < 100
    ensures |CompactMinute(d)| == 12 && |DailyCompact(d)| == 14 && |CompactSecond(d)| == 14
    ensures AllDigits(DailyCompact(d)) && AllDigits(CompactSecond(d))
    ensures |HourMinute(d)| == 5
  {
    ZeroPadWidth(d.year, 4);
    ZeroPadWidth(d.month, 2);
    ZeroPadWidth(d.day, 2);
    ZeroPadWidth(d.hour, 2);
    ZeroPadWidth(d.minute, 2);
    ZeroPadWidth(d.second, 2);
  }

  // ---------------------------------------------------------------------------
  // Validity and the strict reader
  // ---------------------------------------------------------------------------

  predicate IsLeapYear(y: nat)
  {
    (y % 4 == 0 && y % 100 != 0) || y % 400 == 0
  }

  function DaysInMonth(y: nat, m: nat): nat
  {
    if m == 2 then (if IsLeapYear(y) then 29 else 28)
    else if m == 4 || m == 6 || m == 9 || m == 11 then 30
    else 31
  }

  /** A date moment accepts: a four-digit year and every field in its range. */
  predicate Valid(d: DateTime)
  {
    d.year <= 9999 && 1 <= d.month <= 12 && 1 <= d.day <= DaysInMonth(d.year, d.month)
    && d.hour <= 23 && d.minute <= 59 && d.second <= 59
  }

  predicate DecimalDigits(t: string)
  {
    forall i :: 0 <= i < |t| ==> DigitValue(t[i], 10).Some?
  }

  /** `s` has the shape `dddd<sep>dd<sep>dd dd:dd:dd`. */
  predicate StampShape(s: string, sep: char)
  {
    |s| == 19 && s[4] == sep && s[7] == sep && s[10] == ' ' && s[13] == ':' && s[16] == ':'
    && DecimalDigits(s[..4]) && DecimalDigits(s[5..7]) && DecimalDigits(s[8..10])
    && DecimalDigits(s[11..13]) && DecimalDigits(s[14..16]) && DecimalDigits(s[17..])
  }

  /** `moment(s, 'YYYY<sep>MM<sep>DD HH:mm:ss')` for text in exactly that layout:
      the fields it reads, or `None` (an invalid date) when the text has
      another shape or a field is out of range. */
  function ParseStamp(s: string, sep: char): (r: Option<DateTime>)
    ensures r.Some? ==> Valid(r.value)
  {
    if !StampShape(s, sep) then None
    else
      var d := DateTime(RadixValue(s[..4], 10), RadixValue(s[5..7], 10), RadixValue(s[8..10], 10),
                        RadixValue(s[11..13], 10), RadixValue(s[14..16], 10), RadixValue(s[17..], 10));
      if Valid(d) then Some(d) else None
  }

  /** Where the six fields sit in a 19-character stamp. */
  lemma StampPieces(y: string, mo: string, da: string, h: string, mi: string, se: string, sep: char)
    requires |y| == 4 && |mo| == 2 && |da| == 2 && |h| == 2 && |mi| == 2 && |se| == 2
    ensures var s := y + [sep] + mo + [sep] + da + " " + h + ":" + mi + ":" + se;
      |s| == 19 && s[4] == sep && s[7] == sep && s[10] == ' ' && s[13] == ':' && s[16] == ':'
      && s[..4] == y && s[5..7] == mo && s[8..10] == da && s[11..13] == h && s[14..16] == mi && s[17..] == se
  {
    var p1 := y + [sep];
    var p2 := p1 + mo;
    var p3 := p2 + [sep];
    var p4 := p3 + da;
    var p5 := p4 + " ";
    var p6 := p5 + h;
    var p7 := p6 + ":";
    var p8 := p7 + mi;
    var p9 := p8 + ":";
    var s := p9 + se;
    assert s[..17] == p9 && s[17..] == se;
    assert s[14..16] == p8[14..] == mi;
    assert s[11..13] == p6[11..] == h;
    assert s[8..10] == p4[8..] == da;
    assert s[5..7] == p2[5..] == mo;
    assert s[..4] == y;
    assert s[4] == p1[4] && s[7] == p3[7] && s[10] == p5[10] && s[13] == p7[13] && s[16] == p9[16];
  }

  /** A field below 10^w is written as `w` digits that read back as the field. */
  lemma FieldPad(n: nat, w: nat)
    requires 1 <= w && n < Pow10(w)
    ensures |ZeroPad(n, w)| == w && DecimalDigits(ZeroPad(n, w)) && RadixValue(ZeroPad(n, w), 10) == n
  {
    ZeroPadWidth(n, w);
    ZeroPadValue(n, w);
  }

  /** The formatted stamp as its eleven pieces. */
  lemma StampConcat(d: DateTime, sep: char)
    ensures Stamp(d, sep) == ZeroPad(d.year, 4) + [sep] + ZeroPad(d.month, 2) + [sep] + ZeroPad(d.day, 2)
      + " " + ZeroPad(d.hour, 2) + ":" + ZeroPad(d.minute, 2) + ":" + ZeroPad(d.second, 2)
  {
    var date := DatePart(d, sep);
    var hm := HourMinute(d);
    AppendAssoc(date + " ", ZeroPad(d.hour, 2) + ":", ZeroPad(d.minute, 2));
    AppendAssoc(date + " ", ZeroPad(d.hour, 2), ":");
  }

  /** A 19-character text is its eleven pieces put back together. */
  lemma StampSplit(s: string)
    requires |s| == 19
    ensures s == s[..4] + [s[4]] + s[5..7] + [s[7]] + s[8..10] + [s[10]] + s[11..13] + [s[13]] + s[14..16] + [s[16]] + s[17..]
  {
    StampPieces(s[..4], s[5..7], s[8..10], s[11..13], s[14..16], s[17..], s[4]);
    var t := s[..4] + [s[4]] + s[5..7] + [s[7]] + s[8..10] + [s[10]] + s[11..13] + [s[13]] + s[14..16] + [s[16]] + s[17..];
    assert |t| == 19;
    forall i | 0 <= i < 19
      ensures t[i] == s[i]
    {
      if i < 4 {
        assert t[i] == t[..4][i];
      } else if 5 <= i < 7 {
        assert t[i] == t[5..7][i - 5];
      } else if 8 <= i < 10 {
        assert t[i] == t[8..10][i - 8];
      } else if 11 <= i < 13 {
        assert t[i] == t[11..13][i - 11];
      } else if 14 <= i < 16 {
        assert t[i] == t[14..16][i - 14];
      } else if 17 <= i {
        assert t[i] == t[17..][i - 17];
      }
    }
  }

  /** The formatted stamp has the reader's shape, and its fields read back. */
  lemma StampFields(d: DateTime, sep: char)
    requires d.year < 10000 && d.month < 100 && d.day < 100 && d.hour < 100 && d.minute < 100 && d.second < 100
    ensures var s := Stamp(d, sep);
      StampShape(s, sep)
      && RadixValue(s[..4], 10) == d.year && RadixValue(s[5..7], 10) == d.month && RadixValue(s[8..10], 10) == d.day
      && RadixValue(s[11..13], 10) == d.hour && RadixValue(s[14..16], 10) == d.minute && RadixValue(s[17..], 10) == d.second
  {
    assert Pow10(2) == 100 && Pow10(4) == 10000;
    FieldPad(d.year, 4);
    FieldPad(d.month, 2);
    FieldPad(d.day, 2);
    FieldPad(d.hour, 2);
    FieldPad(d.minute, 2);
    FieldPad(d.second, 2);
    StampConcat(d, sep);
    StampPieces(ZeroPad(d.year, 4), ZeroPad(d.month, 2), ZeroPad(d.day, 2),
                ZeroPad(d.hour, 2), ZeroPad(d.minute, 2), ZeroPad(d.second, 2), sep);
  }

  /** Formatting then reading gives the timestamp back. */
  lemma ParseStampOfStamp(d: DateTime, sep: char)
    requires Valid(d) && (sep == '/' || sep == '-')
    ensures ParseStamp(Stamp(d, sep), sep) == Some(d)
  {
    StampFields(d, sep);
  }

  /** Whatever the reader accepts is exactly the formatted text of what it
      returns, so two accepted texts with the same timestamp are equal. */
  lemma StampOfParseStamp(s: string, sep: char)
    requires ParseStamp(s, sep).Some?
    ensures Stamp(ParseStamp(s, sep).value, sep) == s
  {
    var d := ParseStamp(s, sep).value;
    ZeroPadOfDigits(s[..4]);
    ZeroPadOfDigits(s[5..7]);
    ZeroPadOfDigits(s[8..10]);
    ZeroPadOfDigits(s[11..13]);
    ZeroPadOfDigits(s[14..16]);
    ZeroPadOfDigits(s[17..]);
    StampConcat(d, sep);
    StampSplit(s);
  }

  /** `moment(createdAt, 'YYYY/MM/DD HH:mm:ss').format('YYYY-MM-DD')`: the day
      of a record, or moment's `Invalid date`. */
  function DateKey(createdAt: string): (r: string)
    ensures ParseStamp(createdAt, '/').None? <==> r == "Invalid date"
  {
    match ParseStamp(createdAt, '/')
    case Some(d) => assert DatePart(d, '-')[0] == ZeroPad(d.year, 4)[0]; DatePart(d, '-')
    case None => "Invalid date"
  }

  /** `moment(createdAt, 'YYYY/MM/DD HH:mm:ss').format('HH:mm')`. */
  function TimeOf(createdAt: string): (r: string)
    ensures ParseStamp(createdAt, '/').None? <==> r == "Invalid date"
  {
    match ParseStamp(createdAt, '/')
    case Some(d) => assert HourMinute(d)[0] == ZeroPad(d.hour, 2)[0]; HourMinute(d)
    case None => "Invalid date"
  }
}
