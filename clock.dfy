/**
 * The two texts a note takes from the clock when it is created: its
 * timestamp ID (`yyyymmddhhmmss`, the `%d%02d%02d%02d%02d%02d` format) and
 * its creation stamp (the `2006-01-02 15:04:05` layout). The clock itself is
 * a parameter: the instant is passed in.
 */
module Clock {
  import opened Wrappers
  import opened Text
  import opened Query

  /** A reading of the local wall clock. */
  datatype Instant = Instant(year: nat, month: nat, day: nat, hour: nat, minute: nat, second: nat)

  predicate ValidInstant(t: Instant)
  {
    1 <= t.month <= 12 && 1 <= t.day <= DaysIn(t.year, t.month) && t.hour < 24 && t.minute < 60 && t.second < 60
  }

  function Pad2(n: nat): string
  {
    ZeroPadded(n, 2)
  }

  /** The timestamp ID of a note created at `t`; the year is printed without padding. */
  function TimestampId(t: Instant): (id: string)
    ensures AllDigits(id)
    ensures ValidInstant(t) && 1000 <= t.year <= 9999 ==> |id| == 14
  {
    var id := DecimalString(t.year) + Pad2(t.month) + Pad2(t.day) + Pad2(t.hour) + Pad2(t.minute) + Pad2(t.second);
    if ValidInstant(t) && 1000 <= t.year <= 9999 then
      DecimalStringWidth(t.year);
      PaddedWidth(t.month, 2);
      PaddedWidth(t.day, 2);
      PaddedWidth(t.hour, 2);
      PaddedWidth(t.minute, 2);
      PaddedWidth(t.second, 2);
      id
    else id
  }

  /** The date half of the creation stamp: `yyyy-mm-dd`, the year padded to four digits. */
  function DateStamp(t: Instant): string
  {
    ZeroPadded(t.year, 4) + "-" + Pad2(t.month) + "-" + Pad2(t.day)
  }

  /** The creation stamp: the layout `2006-01-02 15:04:05` applied to `t`. */
  function Stamp(t: Instant): string
  {
    DateStamp(t) + " " + Pad2(t.hour) + ":" + Pad2(t.minute) + ":" + Pad2(t.second)
  }

  /** A number with at most `w` digits pads to exactly `w` characters. */
  lemma PaddedWidth(n: nat, w: nat)
    requires (w == 2 && n < 100) || (w == 4 && n < 10000)
    ensures |ZeroPadded(n, w)| == w
  {
    DecimalStringWidth(n);
  }

  /** The value of four digits, as the date parser reads them. */
  lemma FourDigits(s: string)
    requires |s| == 4 && AllDigits(s)
    ensures DigitsValue(s) == 1000 * DigitAt(s, 0) + 100 * DigitAt(s, 1) + 10 * DigitAt(s, 2) + DigitAt(s, 3)
  {
    assert s[..3][..2] == s[..2];
    assert s[..2][..1] == s[..1];
    assert s[..1][..0] == [];
    assert DigitsValue(s[..1]) == DigitAt(s, 0);
    assert DigitsValue(s[..2]) == 10 * DigitAt(s, 0) + DigitAt(s, 1);
    assert DigitsValue(s[..3]) == 100 * DigitAt(s, 0) + 10 * DigitAt(s, 1) + DigitAt(s, 2);
  }

  /** The value of two digits, as the date parser reads them. */
  lemma TwoDigits(s: string)
    requires |s| == 2 && AllDigits(s)
    ensures DigitsValue(s) == 10 * DigitAt(s, 0) + DigitAt(s, 1)
  {
    assert s[..1][..0] == [];
    assert DigitsValue(s[..1]) == DigitAt(s, 0);
  }

  /** Reading back the date stamp of a valid instant with a four-digit year gives its date. */
  lemma DateStampParses(t: Instant)
    requires ValidInstant(t) && t.year <= 9999
    ensures ParseDate(DateStamp(t)) == Some(Date(t.year, t.month, t.day))
  {
    PaddedWidth(t.year, 4);
    PaddedWidth(t.month, 2);
    PaddedWidth(t.day, 2);
    ZeroPaddedValue(t.year, 4);
    ZeroPaddedValue(t.month, 2);
    ZeroPaddedValue(t.day, 2);
    ParseJoinedDate(ZeroPadded(t.year, 4), Pad2(t.month), Pad2(t.day));
  }

  /** Four digits, two digits and two digits joined by dashes parse as the date they denote, when it exists. */
  lemma ParseJoinedDate(y: string, m: string, d: string)
    requires |y| == 4 && |m| == 2 && |d| == 2 && AllDigits(y) && AllDigits(m) && AllDigits(d)
    requires 1 <= DigitsValue(m) <= 12 && 1 <= DigitsValue(d) <= DaysIn(DigitsValue(y), DigitsValue(m))
    ensures ParseDate(y + "-" + m + "-" + d) == Some(Date(DigitsValue(y), DigitsValue(m), DigitsValue(d)))
  {
    var s := y + "-" + m + "-" + d;
    assert s[0] == y[0] && s[1] == y[1] && s[2] == y[2] && s[3] == y[3];
    assert s[5] == m[0] && s[6] == m[1] && s[8] == d[0] && s[9] == d[1];
    assert DateShaped(s);
    FourDigits(y);
    TwoDigits(m);
    TwoDigits(d);
    var year := 1000 * DigitAt(s, 0) + 100 * DigitAt(s, 1) + 10 * DigitAt(s, 2) + DigitAt(s, 3);
    assert year == DigitsValue(y);
    assert 10 * DigitAt(s, 5) + DigitAt(s, 6) == DigitsValue(m);
    assert 10 * DigitAt(s, 8) + DigitAt(s, 9) == DigitsValue(d);
  }

  /**
   * The date part of a creation stamp is the date of the instant, so a note's
   * `CreatedAt` always passes the date parser of the list filters.
   */
  lemma StampDate(t: Instant)
    requires ValidInstant(t) && t.year <= 9999
    ensures NoteDate(Stamp(t)) == DateStamp(t)
    ensures ParseDate(NoteDate(Stamp(t))) == Some(Date(t.year, t.month, t.day))
  {
    var date := DateStamp(t);
    var rest := Pad2(t.hour) + ":" + Pad2(t.minute) + ":" + Pad2(t.second);
    PaddedWidth(t.year, 4);
    PaddedWidth(t.month, 2);
    PaddedWidth(t.day, 2);
    assert |date| == 10;
    assert AllDigits(ZeroPadded(t.year, 4)) && AllDigits(Pad2(t.month)) && AllDigits(Pad2(t.day));
    assert forall k :: 0 <= k < 10 ==> date[k] != ' ';
    assert Stamp(t) == date + " " + rest;
    FirstSpace(date, rest);
    DateStampParses(t);
  }

  /** In a text made of a space-free head, a space and a tail, the first space follows the head. */
  lemma FirstSpace(head: string, tail: string)
    requires forall k :: 0 <= k < |head| ==> head[k] != ' '
    ensures BeforeFirst(head + " " + tail, " ") == head
  {
    var s := head + " " + tail;
    assert OccursAt(s, " ", |head|);
    forall j | 0 <= j < |head|
      ensures !OccursAt(s, " ", j)
    {
      assert s[j] == head[j];
    }
    match IndexOf(s, " ") {
      case None =>
      case Some(k) =>
    }
    assert s[..|head|] == head;
  }
}
