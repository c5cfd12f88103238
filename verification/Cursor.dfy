/** The page cursor (internal/store/query.go): an RFC 3339 time stamp in UTC with nanoseconds, a
    bar and a claim id, in base64url. */
module Cursor {
  import opened Common
  import opened Text
  import opened Calendar
  import Base64

  const HOUR := 3600 * SECOND
  const MINUTE := 60 * SECOND

  // ----- printing -----

  // At least four digits; years outside 0..9999 take more room or a sign.
  function FormatYear(y: int): string {
    if y < 0 then "-" + Year4(-y) else Year4(y)
  }

  function Year4(y: nat): string {
    if y < 10000 then Padded(y, 4) else Decimal(y)
  }

  function FormatDate(d: Date): string
    requires ValidDate(d)
  {
    FormatYear(d.year) + ("-" + (Padded(d.month, 2) + ("-" + Padded(d.day, 2))))
  }

  function TrimZeros(s: string): (t: string)
    ensures t <= s
  {
    if s != "" && s[|s| - 1] == '0' then TrimZeros(s[..|s| - 1]) else s
  }

  function Fraction(nanos: nat): string {
    if nanos == 0 then "" else "." + TrimZeros(Padded(nanos, 9))
  }

  function ClockText(h: nat, m: nat, s: nat, nanos: nat): string {
    Padded(h, 2) + (":" + (Padded(m, 2) + (":" + (Padded(s, 2) + (Fraction(nanos) + "Z")))))
  }

  // The clock time within a day.
  function FormatClock(r: nat): string {
    ClockText(r / HOUR, r / MINUTE % 60, r / SECOND % 60, r % SECOND)
  }

  function StampText(d: Date, r: nat): string
    requires ValidDate(d)
  {
    FormatDate(d) + ("T" + FormatClock(r))
  }

  // t.UTC().Format(time.RFC3339Nano)
  function FormatStamp(t: int): string {
    StampText(CivilOf(DayOf(t)), t % DAY)
  }

  function EncodeCursor(at: int, id: string): string
    requires Base64.Bytes(FormatStamp(at) + "|" + id)
  {
    Base64.Encode(FormatStamp(at) + "|" + id)
  }

  // ----- parsing -----

  // Reads exactly `w` digits and returns their value and the rest.
  function TakeNumber(s: string, w: nat): Option<(nat, string)> {
    if |s| < w || !AllDigits(s[..w]) then None else Some((Value(s[..w]), s[w..]))
  }

  function TakeChar(s: string, c: char): Option<string> {
    if s != "" && s[0] == c then Some(s[1..]) else None
  }

  // The nanoseconds of a fraction; digits past the ninth are dropped.
  function FractionValue(digits: string): nat
    requires AllDigits(digits)
  {
    Value((digits + "000000000")[..9])
  }

  // The end of a stamp: an optional fraction and the UTC mark.
  function ParseEnd(s: string): Option<nat> {
    if s == "Z" then Some(0)
    else if |s| >= 3 && s[0] == '.' && s[|s| - 1] == 'Z' && AllDigits(s[1..|s| - 1]) then Some(FractionValue(s[1..|s| - 1]))
    else None
  }

  // "-02" or ":04": a separator and two digits.
  function TakePart(s: string, sep: char): Option<(nat, string)> {
    var t := TakeChar(s, sep);
    if t.None? then None else TakeNumber(t.value, 2)
  }

  function ParseDate(s: string): Option<(Date, string)> {
    var y := TakeNumber(s, 4);
    if y.None? then None
    else
      var m := TakePart(y.value.1, '-');
      if m.None? then None
      else
        var d := TakePart(m.value.1, '-');
        if d.None? then None
        else
          var date := Date(y.value.0, m.value.0, d.value.0);
          if ValidDate(date) then Some((date, d.value.1)) else None
  }

  function ParseClock(s: string): Option<nat> {
    var h := TakePart(s, 'T');
    if h.None? then None
    else
      var m := TakePart(h.value.1, ':');
      if m.None? then None
      else
        var sec := TakePart(m.value.1, ':');
        if sec.None? then None
        else
          var n := ParseEnd(sec.value.1);
          if n.None? || h.value.0 >= 24 || m.value.0 >= 60 || sec.value.0 >= 60 then None
          else Some(h.value.0 * HOUR + m.value.0 * MINUTE + sec.value.0 * SECOND + n.value)
  }

  // time.Parse(time.RFC3339Nano, s) on stamps in UTC.
  function ParseStamp(s: string): Option<int> {
    var d := ParseDate(s);
    if d.None? then None
    else
      var c := ParseClock(d.value.1);
      if c.None? then None else Some(DayNumber(d.value.0) * DAY + c.value)
  }

  function DecodeCursor(c: string): Option<(int, string)> {
    var raw := Base64.Decode(c);
    if raw.None? then None
    else
      var k := IndexOf(raw.value, '|');
      if k < 0 then None
      else
        var at := ParseStamp(raw.value[..k]);
        if at.None? then None else Some((at.value, raw.value[k + 1..]))
  }

  // ----- round trips, one part at a time -----

  lemma NumberRead(n: nat, w: nat, rest: string)
    requires n < Pow10(w)
    ensures TakeNumber(Padded(n, w) + rest, w) == Some((n, rest))
  {
    var s := Padded(n, w) + rest;
    assert s[..w] == Padded(n, w) && s[w..] == rest;
    PaddedValue(n, w);
  }

  lemma PartRead(sep: char, n: nat, rest: string)
    requires n < 100
    ensures TakePart([sep] + (Padded(n, 2) + rest), sep) == Some((n, rest))
  {
    assert ([sep] + (Padded(n, 2) + rest))[1..] == Padded(n, 2) + rest;
    assert Pow10(2) == 100;
    NumberRead(n, 2, rest);
  }

  function Zeros(n: nat): string {
    seq(n, i => '0')
  }

  lemma {:induction false} TrimmedAndZeros(s: string)
    ensures TrimZeros(s) + Zeros(|s| - |TrimZeros(s)|) == s
  {
    if s != "" && s[|s| - 1] == '0' {
      var init := s[..|s| - 1];
      TrimmedAndZeros(init);
      assert Zeros(|s| - |TrimZeros(s)|) == Zeros(|init| - |TrimZeros(s)|) + ['0'];
      assert s == init + ['0'];
    }
  }

  lemma TrimKeepsDigits(s: string)
    requires AllDigits(s) && Value(s) > 0
    ensures TrimZeros(s) != ""
  {
  }

  lemma EndRead(nanos: nat)
    requires nanos < SECOND
    ensures ParseEnd(Fraction(nanos) + "Z") == Some(nanos)
  {
    if nanos > 0 {
      var p := Padded(nanos, 9);
      var t := TrimZeros(p);
      assert Pow10(3) == 1000 && Pow10(6) == 1000 * Pow10(3) && Pow10(9) == 1000 * Pow10(6);
      PaddedValue(nanos, 9);
      TrimmedAndZeros(p);
      TrimKeepsDigits(p);
      var s := "." + t + "Z";
      assert s[1..|s| - 1] == t;
      assert "000000000" == Zeros(9);
      assert (t + "000000000")[..9] == p;
    }
  }

  lemma ClockParts(r: nat)
    requires r < DAY
    ensures r == r / HOUR * HOUR + r / MINUTE % 60 * MINUTE + r / SECOND % 60 * SECOND + r % SECOND
    ensures r / HOUR < 24
  {
    assert r / MINUTE == r / SECOND / 60;
    assert r / HOUR == r / MINUTE / 60;
  }

  lemma ClockFromParts(t: string, h: nat, s1: string, m: nat, s2: string, s: nat, s3: string, nanos: nat)
    requires h < 24 && m < 60 && s < 60
    requires TakePart(t, 'T') == Some((h, s1)) && TakePart(s1, ':') == Some((m, s2)) && TakePart(s2, ':') == Some((s, s3))
    requires ParseEnd(s3) == Some(nanos)
    ensures ParseClock(t) == Some(h * HOUR + m * MINUTE + s * SECOND + nanos)
  {
  }

  lemma ClockTextRead(h: nat, m: nat, s: nat, nanos: nat)
    requires h < 24 && m < 60 && s < 60 && nanos < SECOND
    ensures ParseClock("T" + ClockText(h, m, s, nanos)) == Some(h * HOUR + m * MINUTE + s * SECOND + nanos)
  {
    var s3 := Fraction(nanos) + "Z";
    var s2 := ":" + (Padded(s, 2) + s3);
    var s1 := ":" + (Padded(m, 2) + s2);
    var t := "T" + (Padded(h, 2) + s1);
    PartRead('T', h, s1);
    PartRead(':', m, s2);
    PartRead(':', s, s3);
    EndRead(nanos);
    ClockFromParts(t, h, s1, m, s2, s, s3, nanos);
  }

  lemma {:induction false} ClockRead(r: nat)
    requires r < DAY
    ensures ParseClock("T" + FormatClock(r)) == Some(r)
  {
    ClockParts(r);
    ClockTextRead(r / HOUR, r / MINUTE % 60, r / SECOND % 60, r % SECOND);
  }

  lemma DateRead(d: Date, rest: string)
    requires ValidDate(d) && 0 <= d.year < 10000
    ensures ParseDate(FormatDate(d) + rest) == Some((d, rest))
  {
    var y, m, k := Padded(d.year, 4), Padded(d.month, 2), Padded(d.day, 2);
    assert FormatDate(d) + rest == y + ("-" + (m + ("-" + (k + rest))));
    assert Pow10(4) == 10000;
    NumberRead(d.year, 4, "-" + (m + ("-" + (k + rest))));
    PartRead('-', d.month, "-" + (k + rest));
    PartRead('-', d.day, rest);
  }

  // A year that is not four digits wide cannot be read back.
  lemma WideYearUnread(d: Date, rest: string)
    requires ValidDate(d) && !(0 <= d.year < 10000)
    ensures ParseDate(FormatDate(d) + rest).None?
  {
    var s := FormatDate(d) + rest;
    if d.year < 0 {
      assert s[0] == '-';
      assert s[..4][0] == '-';
    } else {
      assert Pow10(4) == 10000;
      DecimalLength(d.year, 4);
      assert s[4] == Decimal(d.year)[4];
      assert s[4..][0] == s[4];
    }
  }

  lemma {:induction false} DecimalLength(n: nat, w: nat)
    requires n >= Pow10(w)
    ensures |Decimal(n)| > w
  {
    if w > 0 {
      assert n / 10 >= Pow10(w - 1);
      DecimalLength(n / 10, w - 1);
    }
  }

  function StampYear(t: int): int {
    CivilOf(DayOf(t)).year
  }

  lemma StampFromParts(s: string, d: Date, rest: string, r: nat, t: int)
    requires ParseDate(s) == Some((d, rest)) && ParseClock(rest) == Some(r) && ValidDate(d) && DayNumber(d) * DAY + r == t
    ensures ParseStamp(s) == Some(t)
  {
  }

  lemma NarrowStamp(d: Date, r: nat, t: int)
    requires ValidDate(d) && r < DAY && DayNumber(d) * DAY + r == t && 0 <= d.year < 10000
    ensures ParseStamp(StampText(d, r)) == Some(t)
  {
    var rest := "T" + FormatClock(r);
    DateRead(d, rest);
    ClockRead(r);
    StampFromParts(FormatDate(d) + rest, d, rest, r, t);
  }

  lemma WideStamp(d: Date, r: nat)
    requires ValidDate(d) && !(0 <= d.year < 10000)
    ensures ParseStamp(StampText(d, r)) == None
  {
    WideYearUnread(d, "T" + FormatClock(r));
  }

  lemma DayAndRest(t: int)
    ensures DayOf(t) * DAY + t % DAY == t && 0 <= t % DAY < DAY
  {
  }

  /** A printed instant is read back exactly when its year has four digits. */
  lemma StampRoundTrip(t: int)
    ensures ParseStamp(FormatStamp(t)) == if 0 <= StampYear(t) < 10000 then Some(t) else None
  {
    DayAndRest(t);
    if 0 <= StampYear(t) < 10000 {
      NarrowStamp(CivilOf(DayOf(t)), t % DAY, t);
    } else {
      WideStamp(CivilOf(DayOf(t)), t % DAY);
    }
  }

  predicate Plain(s: string) {
    forall i :: 0 <= i < |s| ==> s[i] != '|' && s[i] as int < 256
  }

  lemma DateIsPlain(d: Date)
    requires ValidDate(d)
    ensures Plain(FormatDate(d))
  {
  }

  lemma StampHasNoBar(t: int)
    ensures Plain(FormatStamp(t))
  {
    DateIsPlain(CivilOf(DayOf(t)));
    ClockIsPlain(t % DAY);
  }

  lemma ClockIsPlain(r: nat)
    ensures Plain(FormatClock(r))
  {
    assert Plain(Fraction(r % SECOND) + "Z");
    var s2 := ":" + (Padded(r / SECOND % 60, 2) + (Fraction(r % SECOND) + "Z"));
    assert Plain(s2);
    var s1 := ":" + (Padded(r / MINUTE % 60, 2) + s2);
    assert Plain(s1);
  }

  lemma DecodeFromParts(c: string, text: string, id: string)
    requires Base64.Decode(c) == Some(text + "|" + id) && '|' !in text
    ensures DecodeCursor(c) == if ParseStamp(text).None? then None else Some((ParseStamp(text).value, id))
  {
    FirstCut(text, '|', id);
  }

  lemma StampBytes(at: int, id: string)
    requires Base64.Bytes(id)
    ensures Base64.Bytes(FormatStamp(at) + "|" + id) && '|' !in FormatStamp(at)
  {
    StampHasNoBar(at);
  }

  /** A cursor is read back, with the same instant and the same id, exactly when the year has
      four digits; the id may be any byte string, bars included. */
  lemma CursorRoundTrip(at: int, id: string)
    requires Base64.Bytes(id)
    ensures Base64.Bytes(FormatStamp(at) + "|" + id)
    ensures DecodeCursor(EncodeCursor(at, id)) == if 0 <= StampYear(at) < 10000 then Some((at, id)) else None
  {
    StampBytes(at, id);
    Base64.RoundTrip(FormatStamp(at) + "|" + id);
    DecodeFromParts(EncodeCursor(at, id), FormatStamp(at), id);
    StampRoundTrip(at);
  }

  // ----- the format of RFC 3339 -----

  // Year, month and day in their places.
  predicate HasDate(s: string, d: Date) {
    && |s| >= 10 && s[4] == '-' && s[7] == '-' && AllDigits(s[..4]) && AllDigits(s[5..7]) && AllDigits(s[8..10])
    && Value(s[..4]) == d.year && Value(s[5..7]) == d.month && Value(s[8..10]) == d.day
  }

  /** A date is printed as four digits of the year, two of the month and two of the day, with hyphens
      between them. */
  lemma DateShape(d: Date)
    requires ValidDate(d) && 0 <= d.year < 10000
    ensures |FormatDate(d)| == 10 && HasDate(FormatDate(d), d)
  {
    var y, m, k := Padded(d.year, 4), Padded(d.month, 2), Padded(d.day, 2);
    var s := FormatDate(d);
    assert Pow10(4) == 10000 && Pow10(2) == 100;
    PaddedValue(d.year, 4);
    PaddedValue(d.month, 2);
    PaddedValue(d.day, 2);
    assert s == y + ("-" + (m + ("-" + k)));
    assert s[..4] == y && s[5..7] == m && s[8..10] == k;
  }

  // Hours, minutes and seconds in their places, then a fraction without a last zero, and the UTC mark.
  predicate HasClock(s: string, h: nat, m: nat, sec: nat, nanos: nat) {
    && |s| >= 10 && s[0] == 'T' && s[3] == ':' && s[6] == ':' && s[|s| - 1] == 'Z'
    && AllDigits(s[1..3]) && AllDigits(s[4..6]) && AllDigits(s[7..9])
    && Value(s[1..3]) == h && Value(s[4..6]) == m && Value(s[7..9]) == sec
    && (nanos == 0 ==> |s| == 10) && (nanos > 0 ==> |s| >= 12 && s[9] == '.' && s[|s| - 2] != '0')
  }

  lemma {:induction false} TrimmedEnd(s: string)
    ensures TrimZeros(s) != "" ==> TrimZeros(s)[|TrimZeros(s)| - 1] != '0'
  {
    if s != "" && s[|s| - 1] == '0' {
      TrimmedEnd(s[..|s| - 1]);
    }
  }

  lemma FractionShape(nanos: nat)
    requires nanos < SECOND
    ensures var f := Fraction(nanos);
            (nanos == 0 ==> f == "") && (nanos > 0 ==> |f| >= 2 && f[0] == '.' && f[|f| - 1] != '0')
  {
    if nanos > 0 {
      assert Pow10(3) == 1000 && Pow10(6) == 1000 * Pow10(3) && Pow10(9) == 1000 * Pow10(6);
      PaddedValue(nanos, 9);
      TrimKeepsDigits(Padded(nanos, 9));
      TrimmedEnd(Padded(nanos, 9));
    }
  }

  lemma {:induction false} ClockShape(h: nat, m: nat, sec: nat, nanos: nat)
    requires h < 24 && m < 60 && sec < 60 && nanos < SECOND
    ensures HasClock("T" + ClockText(h, m, sec, nanos), h, m, sec, nanos)
  {
    var a, b, c, f := Padded(h, 2), Padded(m, 2), Padded(sec, 2), Fraction(nanos);
    var s := "T" + ClockText(h, m, sec, nanos);
    assert Pow10(2) == 100;
    PaddedValue(h, 2);
    PaddedValue(m, 2);
    PaddedValue(sec, 2);
    FractionShape(nanos);
    ClockPlaces(a, b, c, f);
  }

  lemma ClockPlaces(a: string, b: string, c: string, f: string)
    requires |a| == |b| == |c| == 2
    ensures var s := "T" + (a + (":" + (b + (":" + (c + (f + "Z"))))));
            && |s| == 10 + |f| && s[0] == 'T' && s[3] == ':' && s[6] == ':' && s[|s| - 1] == 'Z'
            && s[1..3] == a && s[4..6] == b && s[7..9] == c
            && (f != "" ==> s[9] == f[0] && s[|s| - 2] == f[|f| - 1])
  {
  }

  // A date, then the clock time r nanoseconds after midnight.
  predicate IsStamp(s: string, d: Date, r: nat) {
    HasDate(s, d) && HasClock(s[10..], r / HOUR, r / MINUTE % 60, r / SECOND % 60, r % SECOND)
  }

  /** Section 5.6 of RFC 3339: a date and a clock time are printed with "T" between them and "Z". */
  lemma {:induction false} StampShape(d: Date, r: nat)
    requires ValidDate(d) && 0 <= d.year < 10000 && r < DAY
    ensures IsStamp(StampText(d, r), d, r)
  {
    ClockParts(r);
    DateShape(d);
    ClockShape(r / HOUR, r / MINUTE % 60, r / SECOND % 60, r % SECOND);
    DateThenClock(FormatDate(d), "T" + FormatClock(r), d);
  }

  lemma DateThenClock(date: string, clock: string, d: Date)
    requires |date| == 10 && HasDate(date, d)
    ensures HasDate(date + clock, d) && (date + clock)[10..] == clock
  {
    var s := date + clock;
    assert s[..4] == date[..4] && s[5..7] == date[5..7] && s[8..10] == date[8..10];
  }

  // ----- what can be read -----

  lemma PartIs(s: string, sep: char)
    requires TakePart(s, sep).Some?
    ensures |s| >= 3 && s[0] == sep && AllDigits(s[1..3])
    ensures TakePart(s, sep) == Some((Value(s[1..3]), s[3..]))
  {
    assert s[1..][..2] == s[1..3] && s[1..][2..] == s[3..];
  }

  lemma DateIs(s: string)
    requires ParseDate(s).Some?
    ensures HasDate(s, ParseDate(s).value.0) && ValidDate(ParseDate(s).value.0) && ParseDate(s).value.1 == s[10..]
  {
    var a, b := s[4..], s[7..];
    PartIs(a, '-');
    assert a[3..] == b && a[1..3] == s[5..7];
    PartIs(b, '-');
    assert b[3..] == s[10..] && b[1..3] == s[8..10];
  }

  // A clock time with a fraction or none.
  predicate ShowsClock(s: string, h: nat, m: nat, sec: nat) {
    && |s| >= 10 && s[0] == 'T' && s[3] == ':' && s[6] == ':' && s[|s| - 1] == 'Z'
    && AllDigits(s[1..3]) && AllDigits(s[4..6]) && AllDigits(s[7..9])
    && Value(s[1..3]) == h && Value(s[4..6]) == m && Value(s[7..9]) == sec
  }

  lemma ClockIs(s: string) returns (h: nat, m: nat, sec: nat, nanos: nat)
    requires ParseClock(s).Some?
    ensures h < 24 && m < 60 && sec < 60 && ShowsClock(s, h, m, sec)
    ensures ParseEnd(s[9..]) == Some(nanos) && ParseClock(s).value == h * HOUR + m * MINUTE + sec * SECOND + nanos
  {
    var b, c, e := s[3..], s[6..], s[9..];
    PartIs(s, 'T');
    PartIs(b, ':');
    assert b[3..] == c && b[1..3] == s[4..6];
    PartIs(c, ':');
    assert c[3..] == e && c[1..3] == s[7..9];
    h, m, sec, nanos := Value(s[1..3]), Value(s[4..6]), Value(s[7..9]), ParseEnd(e).value;
    assert e[|e| - 1] == s[|s| - 1];
  }

  /** A text is read as a stamp only if it shows a date there is and a clock time there is, in their
      places, and it is then read as the instant they say. */
  lemma StampSays(s: string) returns (d: Date, h: nat, m: nat, sec: nat, nanos: nat)
    requires ParseStamp(s).Some?
    ensures HasDate(s, d) && ValidDate(d) && h < 24 && m < 60 && sec < 60 && ShowsClock(s[10..], h, m, sec)
    ensures ParseEnd(s[19..]) == Some(nanos)
    ensures ParseStamp(s) == Some(DayNumber(d) * DAY + h * HOUR + m * MINUTE + sec * SECOND + nanos)
  {
    DateIs(s);
    d := ParseDate(s).value.0;
    h, m, sec, nanos := ClockIs(s[10..]);
    assert s[10..][9..] == s[19..];
  }
}
