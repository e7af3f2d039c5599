/** Times of day as the application writes and reads them: the 12-hour
    "H:MM AM" text that `datetime.strptime(s.strip(), "%I:%M %p")` accepts,
    read as a number of minutes since midnight, and the two strftime
    formats that produce such text ("%-I:%M %p" in the RFID script,
    "%I:%M %p" on the settings page). */
module Clock {
  import opened Wrappers
  import opened Text

  const MinutesPerDay := 1440

  /** A time of day, in minutes since midnight. */
  type Minute = m: int | 0 <= m < MinutesPerDay

  /** The longest prefix of ASCII digits. */
  function DigitRun(s: string): (r: string)
    ensures |r| <= |s| && AllDigits(r)
    ensures |r| == |s| || !IsDigit(s[|r|])
    decreases |s|
  {
    if |s| > 0 && IsDigit(s[0]) then [s[0]] + DigitRun(s[1..]) else ""
  }

  /** The longest prefix of whitespace (what the regex `\s+` consumes). */
  function SpaceRun(s: string): (r: string)
    ensures |r| <= |s|
    ensures forall i :: 0 <= i < |r| ==> IsSpace(r[i])
    ensures |r| == |s| || !IsSpace(s[|r|])
    decreases |s|
  {
    if |s| > 0 && IsSpace(s[0]) then [s[0]] + SpaceRun(s[1..]) else ""
  }

  /** The digit run is a prefix of the text. */
  lemma {:induction false} DigitRunPrefix(s: string)
    ensures DigitRun(s) == s[..|DigitRun(s)|]
    decreases |s|
  {
    if |s| > 0 && IsDigit(s[0]) {
      DigitRunPrefix(s[1..]);
    }
  }

  /** The whitespace run is a prefix of the text. */
  lemma {:induction false} SpaceRunPrefix(s: string)
    ensures SpaceRun(s) == s[..|SpaceRun(s)|]
    decreases |s|
  {
    if |s| > 0 && IsSpace(s[0]) {
      SpaceRunPrefix(s[1..]);
    }
  }

  /** Minutes since midnight of a 12-hour clock reading:
      12 AM is hour 0 and 12 PM is hour 12. */
  function ClockMinutes(hour: nat, minute: nat, pm: bool): int
  {
    (hour % 12 + (if pm then 12 else 0)) * 60 + minute
  }

  /** A clock text cut into its four pieces: hour digits, minute digits,
      the whitespace gap and the AM/PM marker. */
  datatype ClockText = ClockText(hour: string, minute: string, gap: string, marker: string)

  /** The shape strptime's pattern for "%I:%M %p" imposes before any value
      is looked at: one or two digits, a colon, one or two digits, at least
      one whitespace character, and the rest is the marker. */
  predicate WellShaped(c: ClockText)
  {
    && AllDigits(c.hour) && 1 <= |c.hour| <= 2
    && AllDigits(c.minute) && 1 <= |c.minute| <= 2
    && |c.gap| >= 1 && (forall i :: 0 <= i < |c.gap| ==> IsSpace(c.gap[i]))
  }

  function Join(c: ClockText): string
  {
    c.hour + (":" + (c.minute + (c.gap + c.marker)))
  }

  /** Cuts a stripped text at the longest digit runs and whitespace run. */
  function SplitClock(t: string): (r: Option<ClockText>)
    ensures r.Some? ==> WellShaped(r.value)
  {
    var h := DigitRun(t);
    if !(1 <= |h| <= 2) || |t| == |h| || t[|h|] != ':' then None
    else SplitAfterColon(h, t[|h| + 1..])
  }

  /** The rest of SplitClock once the hour and the colon are cut off. */
  function SplitAfterColon(h: string, rest: string): (r: Option<ClockText>)
    requires AllDigits(h) && 1 <= |h| <= 2
    ensures r.Some? ==> WellShaped(r.value)
  {
    var m := DigitRun(rest);
    var afterMinute := rest[|m|..];
    var gap := SpaceRun(afterMinute);
    if !(1 <= |m| <= 2) || |gap| == 0 then None
    else Some(ClockText(h, m, gap, afterMinute[|gap|..]))
  }

  /** The pieces SplitClock cuts are the whole text, in order. */
  lemma SplitClockJoin(t: string)
    requires SplitClock(t).Some?
    ensures Join(SplitClock(t).value) == t
  {
    var h := DigitRun(t);
    var rest := t[|h| + 1..];
    var m := DigitRun(rest);
    var afterMinute := rest[|m|..];
    var gap := SpaceRun(afterMinute);
    var marker := afterMinute[|gap|..];
    DigitRunPrefix(t);
    DigitRunPrefix(rest);
    SpaceRunPrefix(afterMinute);
    CutPrefix(afterMinute, gap);
    CutPrefix(rest, m);
    assert rest == m + (gap + marker);
    JoinPieces(t, h, m, gap, marker);
  }

  /** Reassembles a text from the pieces SplitClock cuts it into. */
  lemma JoinPieces(t: string, h: string, m: string, gap: string, marker: string)
    requires |h| < |t| && t[..|h|] == h && t[|h|] == ':'
    requires t[|h| + 1..] == m + (gap + marker)
    ensures t == h + (":" + (m + (gap + marker)))
  {
    assert t == t[..|h|] + ([t[|h|]] + t[|h| + 1..]);
  }

  lemma CutPrefix(s: string, p: string)
    requires |p| <= |s| && s[..|p|] == p
    ensures s == p + s[|p|..]
  {
  }

  /** The values strptime then checks: hour 1..12, minute 0..59, and a
      marker that is AM or PM in any case. */
  predicate InRange(c: ClockText)
    requires WellShaped(c)
  {
    && 1 <= DigitsValue(c.hour) <= 12 && DigitsValue(c.minute) <= 59
    && (IsMarker(c.marker, 'a') || IsMarker(c.marker, 'p'))
  }

  /** The marker is "AM" (`first` is 'a') or "PM" (`first` is 'p') in any
      mix of cases. */
  predicate IsMarker(marker: string, first: char)
  {
    |marker| == 2 && LowerChar(marker[0]) == first && LowerChar(marker[1]) == 'm'
  }

  function ClockValue(c: ClockText): int
    requires WellShaped(c)
  {
    ClockMinutes(DigitsValue(c.hour), DigitsValue(c.minute), IsMarker(c.marker, 'p'))
  }

  /** strptime with "%I:%M %p" on text that is already stripped: an hour
      of one or two digits in 1..12, a colon, a minute of one or two digits
      in 0..59, at least one whitespace character, then AM or PM in any
      case, and nothing after it. */
  function ParseClock(t: string): (r: Option<int>)
    ensures r.Some? ==> 0 <= r.value < MinutesPerDay
  {
    match SplitClock(t)
    case None => None
    case Some(c) => if InRange(c) then Some(ClockValue(c)) else None
  }

  /** `_parse_time`: None for empty text, otherwise strptime on the
      stripped text; a text that does not match gives None. */
  function ParseTime(s: string): (r: Option<int>)
    ensures r.Some? ==> 0 <= r.value < MinutesPerDay
    ensures Strip(s) == [] ==> r == None
  {
    if s == "" then None else ParseClock(Strip(s))
  }

  /** Parsing strips first, so stripping beforehand changes nothing. */
  lemma ParseTimeStrip(s: string)
    ensures ParseTime(Strip(s)) == ParseTime(s)
  {
    StripIdempotent(s);
    if s != "" && Strip(s) == "" {
      assert DigitRun("") == "";
    }
  }

  /** Every well-formed clock text is accepted, with the value its pieces
      denote. */
  lemma ParseClockAccepts(c: ClockText)
    requires WellShaped(c) && InRange(c)
    ensures ParseClock(Join(c)) == Some(ClockValue(c))
  {
    SplitClockOfJoin(c);
  }

  /** SplitClock cuts a joined clock text back into its pieces when the
      marker does not start with whitespace. */
  lemma SplitClockOfJoin(c: ClockText)
    requires WellShaped(c) && |c.marker| > 0 && !IsSpace(c.marker[0])
    ensures SplitClock(Join(c)) == Some(c)
  {
    var h, m, gap, marker := c.hour, c.minute, c.gap, c.marker;
    var afterMinute := gap + marker;
    var rest := m + afterMinute;
    var t := h + (":" + rest);
    assert t == Join(c);
    assert DigitRun(t) == h by {
      DigitRunOf(h, ":" + rest);
    }
    assert t[|h|] == ':' && t[|h| + 1..] == rest by {
      DropAppend(h, ":" + rest);
    }
    assert DigitRun(rest) == m by {
      assert !IsDigit(gap[0]);
      DigitRunOf(m, afterMinute);
    }
    assert rest[|m|..] == afterMinute by {
      DropAppend(m, afterMinute);
    }
    assert SpaceRun(afterMinute) == gap by {
      SpaceRunOf(gap, marker);
    }
    assert afterMinute[|gap|..] == marker by {
      DropAppend(gap, marker);
    }
    SplitAfterColonOfPieces(h, rest, m, afterMinute, gap, marker);
    SplitClockOfPieces(t, h, rest, c);
  }

  /** SplitClock on a text whose hour run and colon have been found. */
  lemma SplitClockOfPieces(t: string, h: string, rest: string, r: ClockText)
    requires DigitRun(t) == h && 1 <= |h| <= 2 && |h| < |t| && t[|h|] == ':'
    requires rest == t[|h| + 1..] && SplitAfterColon(h, rest) == Some(r)
    ensures SplitClock(t) == Some(r)
  {
    assert AllDigits(h);
    assert SplitClock(t) == SplitAfterColon(h, rest);
  }

  /** SplitAfterColon on a text whose minute run and gap have been found. */
  lemma SplitAfterColonOfPieces(h: string, rest: string, m: string, afterMinute: string,
                                gap: string, marker: string)
    requires AllDigits(h) && 1 <= |h| <= 2
    requires DigitRun(rest) == m && 1 <= |m| <= 2
    requires afterMinute == rest[|m|..] && SpaceRun(afterMinute) == gap && |gap| >= 1
    requires afterMinute[|gap|..] == marker
    ensures SplitAfterColon(h, rest) == Some(ClockText(h, m, gap, marker))
  {
  }

  lemma DropAppend(a: string, b: string)
    ensures (a + b)[|a|..] == b
    ensures |b| > 0 ==> (a + b)[|a|] == b[0] && (a + b)[|a| + 1..] == b[1..]
  {
  }

  /** The digit run of digits followed by a non-digit is those digits. */
  lemma {:induction false} DigitRunOf(d: string, rest: string)
    requires AllDigits(d) && (rest == [] || !IsDigit(rest[0]))
    ensures DigitRun(d + rest) == d
    decreases |d|
  {
    if d != [] {
      assert (d + rest)[1..] == d[1..] + rest;
      DigitRunOf(d[1..], rest);
      assert [d[0]] + d[1..] == d;
    }
  }

  /** The whitespace run of whitespace followed by a non-space is that
      whitespace. */
  lemma {:induction false} SpaceRunOf(g: string, rest: string)
    requires (forall i :: 0 <= i < |g| ==> IsSpace(g[i])) && (rest == [] || !IsSpace(rest[0]))
    ensures SpaceRun(g + rest) == g
    decreases |g|
  {
    if g != [] {
      assert (g + rest)[1..] == g[1..] + rest;
      SpaceRunOf(g[1..], rest);
      assert [g[0]] + g[1..] == g;
    }
  }

  /** Every accepted text has that shape: ParseClock accepts exactly the
      texts ParseClockAccepts describes. */
  lemma ParseClockShape(t: string) returns (c: ClockText)
    requires ParseClock(t).Some?
    ensures WellShaped(c) && InRange(c) && Join(c) == t
    ensures ParseClock(t) == Some(ClockValue(c))
  {
    c := SplitClock(t).value;
    SplitClockJoin(t);
  }

  /** The hour a 24-hour clock shows on a 12-hour face (strftime's %I). */
  function Hour12(t: Minute): (h: nat)
    ensures 1 <= h <= 12
  {
    if (t / 60) % 12 == 0 then 12 else (t / 60) % 12
  }

  function Meridiem(t: Minute): string
  {
    if t / 60 < 12 then "AM" else "PM"
  }

  /** A number below 100 written with two digits (strftime's %M and %I). */
  function TwoDigits(n: nat): string
    requires n < 100
  {
    ZeroPad(NatDigits(n), 2)
  }

  /** strftime("%-I:%M %p"): the check-in text the RFID script writes. */
  function FormatTime(t: Minute): string
  {
    Join(ClockText(NatDigits(Hour12(t)), TwoDigits(t % 60), " ", Meridiem(t)))
  }

  /** strftime("%I:%M %p"): the class-start text the settings page writes. */
  function FormatTimePadded(t: Minute): string
  {
    Join(ClockText(TwoDigits(Hour12(t)), TwoDigits(t % 60), " ", Meridiem(t)))
  }

  lemma TwoDigitsShape(n: nat)
    requires n < 100
    ensures AllDigits(TwoDigits(n)) && |TwoDigits(n)| == 2 && DigitsValue(TwoDigits(n)) == n
  {
    NatDigitsValue(n);
    if n < 10 {
      NatDigitsSmall(n);
      LeadingZerosValue(1, NatDigits(n));
    } else {
      NatDigitsTwo(n);
    }
  }

  lemma NatDigitsHour(n: nat)
    requires 1 <= n <= 12
    ensures AllDigits(NatDigits(n)) && 1 <= |NatDigits(n)| <= 2 && DigitsValue(NatDigits(n)) == n
  {
    NatDigitsValue(n);
    if n < 10 { NatDigitsSmall(n); } else { NatDigitsTwo(n); }
  }

  lemma MeridiemPieces(t: Minute)
    ensures IsMarker(Meridiem(t), if t / 60 < 12 then 'a' else 'p')
    ensures !IsMarker(Meridiem(t), if t / 60 < 12 then 'p' else 'a')
    ensures |Meridiem(t)| == 2 && !IsSpace(Meridiem(t)[1])
  {
  }

  lemma ClockMinutesOfFormat(t: Minute)
    ensures ClockMinutes(Hour12(t), t % 60, t / 60 >= 12) == t
  {
  }

  /** A well-formed clock text with no blank at either end parses to the
      value its pieces denote. */
  lemma ParseTimeOfJoin(c: ClockText)
    requires WellShaped(c) && InRange(c)
    ensures ParseTime(Join(c)) == Some(ClockValue(c))
  {
    var s := Join(c);
    assert s[0] == c.hour[0];
    assert s[|s| - 1] == c.marker[1] by { DropAppend(c.hour + (":" + (c.minute + c.gap)), c.marker); }
    assert !IsSpace(c.marker[1]);
    StripUnchanged(s);
    ParseClockAccepts(c);
  }

  /** The RFID script's check-in text reads back as the same time:
      `_parse_time(now.strftime("%-I:%M %p"))` is `now` to the minute. */
  lemma ParseFormatTime(t: Minute)
    ensures ParseTime(FormatTime(t)) == Some(t)
  {
    NatDigitsHour(Hour12(t));
    TwoDigitsShape(t % 60);
    MeridiemPieces(t);
    ParseTimeOfJoin(ClockText(NatDigits(Hour12(t)), TwoDigits(t % 60), " ", Meridiem(t)));
    ClockMinutesOfFormat(t);
  }

  /** The settings page's zero-padded class-start text reads back as the
      same time. */
  lemma ParseFormatTimePadded(t: Minute)
    ensures ParseTime(FormatTimePadded(t)) == Some(t)
  {
    TwoDigitsShape(Hour12(t));
    TwoDigitsShape(t % 60);
    MeridiemPieces(t);
    ParseTimeOfJoin(ClockText(TwoDigits(Hour12(t)), TwoDigits(t % 60), " ", Meridiem(t)));
    ClockMinutesOfFormat(t);
  }

  /** `_is_time_in_range`: false when any time is missing, otherwise
      start <= t <= end with both ends included. */
  function IsTimeInRange(t: Option<int>, start: Option<int>, end: Option<int>): (r: bool)
    ensures r ==> t.Some? && start.Some? && end.Some?
    ensures r ==> start.value <= t.value <= end.value
    ensures t.Some? && start.Some? && end.Some? && start.value <= t.value <= end.value ==> r
  {
    if t.None? || start.None? || end.None? then false
    else start.value <= t.value <= end.value
  }
}
