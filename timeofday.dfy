/**
 * Time-range parsing and interval membership (helpers.py, first half).
 *
 * A time of day is a number of minutes since midnight. `strptime` with the
 * two formats "%I %p" and "%I:%M %p" is modelled by the regular expression
 * Python builds for it: %I is 1[0-2]|0[1-9]|[1-9], %M is [0-5]\d|\d, the
 * space becomes \s+, %p is am|pm in any case, and the whole text must match.
 * Here \d is an ASCII digit; Python's also matches other Unicode decimal digits.
 */
module TimeOfDay {
  import opened Wrappers
  import opened Text

  /** Minutes since midnight. */
  type Minute = m: int | 0 <= m < 1440

  /** A digit immediately followed by "AM" or "PM" at position i. */
  predicate GluedAt(s: string, i: nat)
    requires i + 3 <= |s|
  {
    IsDigit(s[i]) && (s[i + 1] == 'A' || s[i + 1] == 'P') && s[i + 2] == 'M'
  }

  /** `re.sub(r'(\d)(AM|PM)', r'\1 \2', s)`: a left-to-right scan that puts a space between a digit and a marker glued to it. */
  function SpaceBeforeMeridiem(s: string): string
    decreases |s|
  {
    if |s| >= 3 && GluedAt(s, 0) then s[..1] + " " + s[1..3] + SpaceBeforeMeridiem(s[3..])
    else if s == [] then []
    else s[..1] + SpaceBeforeMeridiem(s[1..])
  }

  /** The two formats `parse_time_string` tries, in order. */
  datatype Format = HourOnly | HourMinute   // "%I %p" and "%I:%M %p"

  const Formats: seq<Format> := [HourOnly, HourMinute]

  /** The %I field: the numbers 1..12 written with one or two digits, read as decimal. */
  function HourField(s: string): (h: Option<nat>)
    ensures h.Some? ==> 1 <= h.value <= 12 && 1 <= |s| <= 2 && AllDigits(s)
  {
    if |s| == 1 && '1' <= s[0] <= '9' then Some(DigitValue(s[0]))                      // [1-9]
    else if |s| == 2 && s[0] == '0' && '1' <= s[1] <= '9' then Some(DigitValue(s[1]))   // 0[1-9]
    else if |s| == 2 && s[0] == '1' && '0' <= s[1] <= '2' then Some(10 + DigitValue(s[1]))  // 1[0-2]
    else None
  }

  /** The %M field: the numbers 0..59 written with one or two digits, read as decimal. */
  function MinuteField(s: string): (m: Option<nat>)
    ensures m.Some? ==> m.value < 60 && 1 <= |s| <= 2 && AllDigits(s)
  {
    if |s| == 1 && IsDigit(s[0]) then Some(DigitValue(s[0]))                                      // \d
    else if |s| == 2 && '0' <= s[0] <= '5' && IsDigit(s[1]) then Some(10 * DigitValue(s[0]) + DigitValue(s[1]))  // [0-5]\d
    else None
  }

  /** The %p field, in any letter case: Some(true) for PM, Some(false) for AM. */
  function MeridiemField(s: string): Option<bool>
  {
    if |s| == 2 && (s[1] == 'm' || s[1] == 'M') then
      if s[0] == 'a' || s[0] == 'A' then Some(false)
      else if s[0] == 'p' || s[0] == 'P' then Some(true)
      else None
    else None
  }

  /** The 24-hour clock hour of a 12-hour clock hour: 12 AM is 0, 12 PM is 12. */
  function Hour24(h: nat, pm: bool): (r: nat)
    requires 1 <= h <= 12
    ensures r == h % 12 + (if pm then 12 else 0)
    ensures r < 24 && (r < 12 <==> !pm)
  {
    if !pm then (if h == 12 then 0 else h) else (if h == 12 then 12 else h + 12)
  }

  /** The hour and minute of the text before the whitespace and the marker. */
  function ClockFields(body: string, f: Format): (r: Option<(nat, nat)>)
    ensures r.Some? ==> 1 <= r.value.0 <= 12 && r.value.1 < 60
  {
    match f
    case HourOnly =>
      (match HourField(body)
       case None => None
       case Some(h) => Some((h, 0)))
    case HourMinute =>
      (match FirstIndex(body, ":")
       case None => None
       case Some(i) =>
         var h, m := HourField(body[..i]), MinuteField(body[i + 1..]);
         if h.Some? && m.Some? then Some((h.value, m.value)) else None)
  }

  /** `datetime.strptime(s, f).time()` for the two formats, None where it raises. */
  function Strptime(s: string, f: Format): Option<Minute>
  {
    if |s| < 2 then None
    else
      match MeridiemField(s[|s| - 2..])
      case None => None
      case Some(pm) =>
        var head := s[..|s| - 2];
        var body := TrimRight(head);
        if |body| == |head| then None
        else
          match ClockFields(body, f)
          case None => None
          case Some(hm) => Some(Hour24(hm.0, pm) * 60 + hm.1)
  }

  /** What `parse_time_string` returns: the first format that matches, or None. */
  function TimeOfString(s: string): Option<Minute>
  {
    var t := SpaceBeforeMeridiem(s);
    if Strptime(t, HourOnly).Some? then Strptime(t, HourOnly) else Strptime(t, HourMinute)
  }

  /** `parse_time_string`: normalises glued markers, then tries each format in turn and returns the first success. */
  method ParseTimeString(timeStr: string) returns (t: Option<Minute>)
    ensures t == TimeOfString(timeStr)
  {
    var s := SpaceBeforeMeridiem(timeStr);
    for k := 0 to |Formats|
      invariant forall j :: 0 <= j < k ==> Strptime(s, Formats[j]).None?
    {
      var parsed := Strptime(s, Formats[k]);
      if parsed.Some? {
        return parsed;
      }
    }
    assert Formats[0] == HourOnly && Formats[1] == HourMinute;
    return None;
  }

  /** The start side without a marker takes the end side's marker, AM first, as text. */
  function InheritMeridiem(startStr: string, endStr: string): string
  {
    if !Contains(startStr, "AM") && !Contains(startStr, "PM") && (Contains(endStr, "AM") || Contains(endStr, "PM")) then
      if Contains(endStr, "AM") then startStr + " AM" else startStr + " PM"
    else startStr
  }

  /** `parse_time_range`: the start and end times of "start - end", or (None, None) unless the text has exactly one '-'. */
  function ParseTimeRange(s: string): (r: (Option<Minute>, Option<Minute>))
    ensures Count(s, '-') != 1 ==> r == (None, None)
  {
    var parts := SplitOn(s, "-");
    SplitCount(s, '-');
    if |parts| != 2 then (None, None)
    else
      var startStr, endStr := Strip(parts[0]), Strip(parts[1]);
      (TimeOfString(InheritMeridiem(startStr, endStr)), TimeOfString(endStr))
  }

  /** `is_time_in_interval`: half-open [start, end), wrapping past midnight when start > end. */
  function IsTimeInInterval(start: int, end: int, current: int): bool
  {
    if start <= end then start <= current < end else current >= start || current < end
  }

  // ---------------------------------------------------------------------------
  // Normalisation of glued markers

  /** Text made of digits and colons only, as the hour and minute part of a time. */
  predicate ClockChars(s: string) {
    forall i :: 0 <= i < |s| ==> IsDigit(s[i]) || s[i] == ':'
  }

  lemma {:induction false} ShortUnchanged(s: string)
    requires |s| < 3
    ensures SpaceBeforeMeridiem(s) == s
    decreases |s|
  {
    if s != [] {
      ShortUnchanged(s[1..]);
      assert s == s[..1] + s[1..];
    }
  }

  /** A marker glued to the digits before it gets a space: "1:26PM" becomes "1:26 PM". */
  lemma {:induction false} GluedMarkerSpaced(c: string, marker: string)
    requires c != [] && ClockChars(c) && IsDigit(c[|c| - 1])
    requires marker == "AM" || marker == "PM"
    ensures SpaceBeforeMeridiem(c + marker) == c + " " + marker
    decreases |c|
  {
    var s := c + marker;
    if |c| == 1 {
      assert s[1] == marker[0] && s[2] == 'M';
      assert GluedAt(s, 0) && s[..1] == c && s[1..3] == marker && s[3..] == [];
    } else {
      assert s[1] == c[1];
      assert !GluedAt(s, 0);
      assert s[1..] == c[1..] + marker;
      GluedMarkerSpaced(c[1..], marker);
      assert s[..1] + (c[1..] + " " + marker) == c + " " + marker;
    }
  }

  /** A marker already separated by a space is left alone. */
  lemma {:induction false} SpacedMarkerKept(c: string, marker: string)
    requires ClockChars(c) && |marker| == 2
    ensures SpaceBeforeMeridiem(c + " " + marker) == c + " " + marker
    decreases |c|
  {
    var s := c + " " + marker;
    if c == [] {
      assert s == " " + marker && s[1..] == marker;
      ShortUnchanged(marker);
    } else {
      assert s[1] == if |c| == 1 then ' ' else c[1];
      assert !GluedAt(s, 0);
      assert s[1..] == c[1..] + " " + marker;
      SpacedMarkerKept(c[1..], marker);
      assert s[..1] + (c[1..] + " " + marker) == s;
    }
  }

  // ---------------------------------------------------------------------------
  // What parse_time_string accepts

  /** The result of a clock text with its marker, when the fields match. */
  function ClockValue(fields: Option<(nat, nat)>, pm: bool): Option<Minute>
    requires fields.Some? ==> 1 <= fields.value.0 <= 12 && fields.value.1 < 60
  {
    match fields
    case None => None
    case Some(hm) => Some(Hour24(hm.0, pm) * 60 + hm.1)
  }

  /** A clock text, whitespace and a marker in any case reach the fields of the clock text under the marker's half of the day. */
  lemma StrptimeSpaced(c: string, w: string, marker: string, f: Format)
    requires c != [] && ClockChars(c) && w != [] && AllSpace(w) && MeridiemField(marker).Some?
    ensures Strptime(c + w + marker, f) == ClockValue(ClockFields(c, f), MeridiemField(marker).value)
  {
    var s := c + w + marker;
    assert s[|s| - 2..] == marker;
    assert s[..|s| - 2] == c + w;
    assert !IsSpace(c[|c| - 1]) by {
      assert IsDigit(c[|c| - 1]) || c[|c| - 1] == ':';
    }
    TrimRightPadded(c, w);
  }

  /** Every text `strptime` accepts under a format is a clock of valid fields, whitespace and a marker, read as its digits say. */
  lemma StrptimeParts(t: string, f: Format) returns (hour: string, minute: string, w: string, marker: string)
    requires Strptime(t, f).Some?
    ensures t == Clock(hour, minute) + w + marker
    ensures HourField(hour).Some? && (minute == [] || MinuteField(minute).Some?)
    ensures w != [] && AllSpace(w) && MeridiemField(marker).Some?
    ensures Strptime(t, f) == Some(ClockMinutes(hour, minute, MeridiemField(marker).value))
  {
    StrptimeSome(t, f);
    marker := t[|t| - 2..];
    var head := t[..|t| - 2];
    var body := TrimRight(head);
    w := head[|body|..];
    assert t == head + marker && head == body + w;
    hour, minute := ClockFieldsParts(body, f, MeridiemField(marker).value);
  }

  /** What an accepted text looks like to `Strptime`: a marker at the end, whitespace before it, and fields before that. */
  lemma StrptimeSome(t: string, f: Format)
    requires Strptime(t, f).Some?
    ensures |t| >= 2 && MeridiemField(t[|t| - 2..]).Some?
    ensures |TrimRight(t[..|t| - 2])| < |t| - 2
    ensures Strptime(t, f) == ClockValue(ClockFields(TrimRight(t[..|t| - 2]), f), MeridiemField(t[|t| - 2..]).value)
  {
  }

  /** The fields a format finds in a clock text are those of a valid H or H:MM spelling of it. */
  lemma ClockFieldsParts(body: string, f: Format, pm: bool) returns (hour: string, minute: string)
    requires ClockFields(body, f).Some?
    ensures body == Clock(hour, minute)
    ensures HourField(hour).Some? && (minute == [] || MinuteField(minute).Some?)
    ensures ClockValue(ClockFields(body, f), pm) == Some(ClockMinutes(hour, minute, pm))
  {
    if f == HourOnly {
      hour, minute := body, [];
    } else {
      var i := FirstIndex(body, ":").value;
      hour, minute := body[..i], body[i + 1..];
      assert body == hour + ":" + minute;
    }
    FieldsValue(hour, minute, pm);
  }

  /** Valid fields under a marker give the time `ClockMinutes` names. */
  lemma FieldsValue(hour: string, minute: string, pm: bool)
    requires HourField(hour).Some? && (minute == [] || MinuteField(minute).Some?)
    ensures ClockValue(Some((HourField(hour).value, if minute == [] then 0 else MinuteField(minute).value)), pm)
         == Some(ClockMinutes(hour, minute, pm))
  {
  }

  /**
   * `parse_time_string` accepts nothing else: whatever it parses is, after the marker normalisation, a clock
   * of valid %I (and %M) fields, whitespace and a marker, and the time is what those digits denote.
   */
  lemma ParsedIsSpelled(s: string) returns (hour: string, minute: string, w: string, marker: string)
    requires TimeOfString(s).Some?
    ensures SpaceBeforeMeridiem(s) == Clock(hour, minute) + w + marker
    ensures HourField(hour).Some? && (minute == [] || MinuteField(minute).Some?)
    ensures w != [] && AllSpace(w) && MeridiemField(marker).Some?
    ensures TimeOfString(s) == Some(ClockMinutes(hour, minute, MeridiemField(marker).value))
  {
    var t := SpaceBeforeMeridiem(s);
    if Strptime(t, HourOnly).Some? {
      hour, minute, w, marker := StrptimeParts(t, HourOnly);
    } else {
      hour, minute, w, marker := StrptimeParts(t, HourMinute);
    }
  }

  /** Conversely, every text that normalises to such a clock, whitespace and marker parses to the time its digits denote. */
  lemma SpelledIsParsed(s: string, hour: string, minute: string, w: string, marker: string)
    requires SpaceBeforeMeridiem(s) == Clock(hour, minute) + w + marker
    requires HourField(hour).Some? && (minute == [] || MinuteField(minute).Some?)
    requires w != [] && AllSpace(w) && MeridiemField(marker).Some?
    ensures TimeOfString(s) == Some(ClockMinutes(hour, minute, MeridiemField(marker).value))
  {
    var c := Clock(hour, minute);
    ClockShape(hour, minute);
    StrptimeSpaced(c, w, marker, HourOnly);
    StrptimeSpaced(c, w, marker, HourMinute);
    ClockOfFields(hour, minute, MeridiemField(marker).value);
  }

  lemma HourOnlyFields(hour: string)
    requires HourField(hour).Some?
    ensures ClockFields(hour, HourOnly) == Some((HourField(hour).value, 0))
    ensures ClockFields(hour, HourMinute).None?
  {
    AbsentHead(hour, ":");
  }

  lemma HourMinuteFields(hour: string, minute: string)
    requires HourField(hour).Some? && MinuteField(minute).Some?
    ensures ClockFields(hour + ":" + minute, HourMinute) == Some((HourField(hour).value, MinuteField(minute).value))
    ensures ClockFields(hour + ":" + minute, HourOnly).None?
  {
    var body := hour + ":" + minute;
    FirstIndexAfter(hour, ':', minute);
    assert body[..|hour|] == hour && body[|hour| + 1..] == minute;
  }

  /** The value of a clock text under the first format whose fields match it. */
  function FirstClockValue(c: string, pm: bool): Option<Minute>
  {
    if ClockFields(c, HourOnly).Some? then ClockValue(ClockFields(c, HourOnly), pm)
    else ClockValue(ClockFields(c, HourMinute), pm)
  }

  /** A clock text, one space and a marker in any case parse as the clock text's fields say. */
  lemma TimeOfSpaced(c: string, marker: string)
    requires c != [] && ClockChars(c) && MeridiemField(marker).Some?
    ensures TimeOfString(c + " " + marker) == FirstClockValue(c, MeridiemField(marker).value)
  {
    var s := c + " " + marker;
    SpacedMarkerKept(c, marker);
    assert SpaceBeforeMeridiem(s) == s;
    StrptimeSpaced(c, " ", marker, HourOnly);
    StrptimeSpaced(c, " ", marker, HourMinute);
  }

  /** Gluing an upper-case marker to the digits changes nothing: "1:26PM" parses as "1:26 PM". */
  lemma TimeOfGlued(c: string, marker: string)
    requires c != [] && ClockChars(c) && IsDigit(c[|c| - 1])
    requires marker == "AM" || marker == "PM"
    ensures TimeOfString(c + marker) == TimeOfString(c + " " + marker)
  {
    GluedMarkerSpaced(c, marker);
    SpacedMarkerKept(c, marker);
  }

  /** The clock text H, or H:MM when a minute field is given. */
  function Clock(hour: string, minute: string): string
  {
    if minute == [] then hour else hour + ":" + minute
  }

  /** A time written H or H:MM, then a marker AM or PM, glued or after one space. */
  function Spelled(hour: string, minute: string, glued: bool, marker: string): string
  {
    Clock(hour, minute) + (if glued then "" else " ") + marker
  }

  /** The time of day that the fields of a clock text denote with a marker. */
  function ClockMinutes(hour: string, minute: string, pm: bool): Minute
    requires HourField(hour).Some? && (minute == [] || MinuteField(minute).Some?)
  {
    Hour24(HourField(hour).value, pm) * 60 + (if minute == [] then 0 else MinuteField(minute).value)
  }

  /** %I reads its digits as a decimal number and accepts exactly the numbers 1..12 written with one or two digits. */
  lemma HourFieldDecimal(s: string)
    ensures HourField(s).Some? <==> 1 <= |s| <= 2 && AllDigits(s) && 1 <= DecimalValue(s) <= 12
    ensures HourField(s).Some? ==> HourField(s).value == DecimalValue(s)
  {
    if 1 <= |s| <= 2 && AllDigits(s) {
      DecimalOfShort(s);
    }
  }

  /** %M reads its digits as a decimal number and accepts exactly the numbers 0..59 written with one or two digits. */
  lemma MinuteFieldDecimal(s: string)
    ensures MinuteField(s).Some? <==> 1 <= |s| <= 2 && AllDigits(s) && DecimalValue(s) < 60
    ensures MinuteField(s).Some? ==> MinuteField(s).value == DecimalValue(s)
  {
    if 1 <= |s| <= 2 && AllDigits(s) {
      DecimalOfShort(s);
    }
  }

  /** The time of a clock text is its hour's digits modulo 12, plus 12 after noon, then its minute's digits. */
  lemma ClockMinutesDecimal(hour: string, minute: string, pm: bool)
    requires HourField(hour).Some? && (minute == [] || MinuteField(minute).Some?)
    ensures ClockMinutes(hour, minute, pm)
         == (DecimalValue(hour) % 12 + (if pm then 12 else 0)) * 60 + (if minute == [] then 0 else DecimalValue(minute))
  {
    HourFieldDecimal(hour);
    if minute != [] {
      MinuteFieldDecimal(minute);
    }
  }

  /** The clock text H or H:MM of valid fields denotes the time its fields say. */
  lemma ClockOfFields(hour: string, minute: string, pm: bool)
    requires HourField(hour).Some? && (minute == [] || MinuteField(minute).Some?)
    ensures FirstClockValue(Clock(hour, minute), pm) == Some(ClockMinutes(hour, minute, pm))
  {
    if minute == [] {
      HourOnlyFields(hour);
    } else {
      HourMinuteFields(hour, minute);
    }
    FieldsValue(hour, minute, pm);
  }

  /** `parse_time_string` reads every H[:MM] AM|PM spelling, glued or spaced, as the 24-hour time it denotes. */
  lemma ParseSpelled(hour: string, minute: string, glued: bool, marker: string)
    requires HourField(hour).Some? && (minute == [] || MinuteField(minute).Some?)
    requires marker == "AM" || marker == "PM"
    ensures TimeOfString(Spelled(hour, minute, glued, marker)) == Some(ClockMinutes(hour, minute, marker == "PM"))
  {
    var c := Clock(hour, minute);
    assert c != [] && ClockChars(c) && IsDigit(c[|c| - 1]) by {
      if minute != [] {
        assert c[|c| - 1] == minute[|minute| - 1];
      }
    }
    var pm := marker == "PM";
    assert MeridiemField(marker) == Some(pm);
    TimeOfSpaced(c, marker);
    ClockOfFields(hour, minute, pm);
    if glued {
      assert Spelled(hour, minute, glued, marker) == c + marker;
      TimeOfGlued(c, marker);
    } else {
      assert Spelled(hour, minute, glued, marker) == c + " " + marker;
    }
  }

  lemma NoonFields()
    ensures HourField("12") == Some(12) && MinuteField("30") == Some(30)
  {
  }

  lemma NoonTexts()
    ensures Spelled("12", "", false, "AM") == "12 AM" && Spelled("12", "", false, "PM") == "12 PM"
    ensures Spelled("12", "30", true, "AM") == "12:30AM"
  {
  }

  /** 12 AM is midnight. */
  lemma Midnight()
    ensures TimeOfString("12 AM") == Some(0)
  {
    NoonFields();
    ParseSpelled("12", "", false, "AM");
    NoonTexts();
  }

  /** 12 PM is noon. */
  lemma Noon()
    ensures TimeOfString("12 PM") == Some(720)
  {
    NoonFields();
    ParseSpelled("12", "", false, "PM");
    NoonTexts();
  }

  lemma SevenFiveFields()
    ensures HourField("07") == Some(7) && MinuteField("05") == Some(5) && MeridiemField("pm") == Some(true)
  {
  }

  lemma SevenFiveClock()
    ensures "07:05" != [] && ClockChars("07:05") && FirstClockValue("07:05", true) == Some(1145)
  {
    SevenFiveFields();
    ClockOfFields("07", "05", true);
    assert Clock("07", "05") == "07:05";
  }

  /** A leading zero and a lower-case marker after a space are accepted. */
  lemma LowerCaseSpacedMarker()
    ensures TimeOfString("07:05 pm") == Some(1145)
  {
    SevenFiveFields();
    SevenFiveClock();
    TimeOfSpaced("07:05", "pm");
    assert "07:05" + " " + "pm" == "07:05 pm";
  }

  lemma HalfPastMidnightValue()
    ensures HourField("12").Some? && MinuteField("30").Some? && ClockMinutes("12", "30", false) == 30
  {
    NoonFields();
  }

  lemma GluedHalfPastMidnightSpelled()
    ensures TimeOfString(Spelled("12", "30", true, "AM")) == Some(30)
  {
    HalfPastMidnightValue();
    ParseSpelled("12", "30", true, "AM");
  }

  /** A glued marker after minutes: "12:30AM" is half past midnight. */
  lemma GluedHalfPastMidnight()
    ensures TimeOfString("12:30AM") == Some(30)
  {
    GluedHalfPastMidnightSpelled();
    NoonTexts();
  }

  /** A 24-hour time without a marker is rejected. */
  lemma RejectNoMarker()
    ensures TimeOfString("09:00") == None
  {
    assert "09:00"[|"09:00"| - 2..] == "00";
    assert SpaceBeforeMeridiem("09:00") == "09:00" by {
      assert "09:00"[1] == '9' && "09:00"[2] == ':' && "09:00"[3] == '0';
      NoGluedUnchangedPrefix("09:00");
    }
  }

  /** Hour 13 is outside %I. */
  lemma RejectHour13()
    ensures TimeOfString("13 PM") == None
  {
    assert "13" + " " + "PM" == "13 PM";
    RejectSpaced("13", "PM");
  }

  /** Hour 0 is outside %I. */
  lemma RejectHour0()
    ensures TimeOfString("0 AM") == None
  {
    assert "0" + " " + "AM" == "0 AM";
    RejectSpaced("0", "AM");
  }

  /** Minute 60 is outside %M. */
  lemma RejectMinute60()
    ensures TimeOfString("9:60 AM") == None
  {
    assert "9" + ":" + "60" + " " + "AM" == "9:60 AM";
    RejectSpacedMinute("9", "60", "AM");
  }

  /** A lower-case marker glued to the digits is not normalised, and %p needs whitespace before it. */
  lemma RejectGluedLowerCase()
    ensures TimeOfString("7pm") == None
  {
    assert SpaceBeforeMeridiem("7pm") == "7pm" by {
      assert "7pm"[1] == 'p';
      NoGluedUnchangedPrefix("7pm");
    }
    assert "7pm"[..1] == "7" && TrimRight("7") == "7";
  }

  lemma RejectSpaced(hour: string, marker: string)
    requires |hour| >= 1 && AllDigits(hour) && HourField(hour).None?
    requires marker == "AM" || marker == "PM"
    ensures TimeOfString(hour + " " + marker) == None
  {
    SpacedMarkerKept(hour, marker);
    StrptimeSpaced(hour, " ", marker, HourOnly);
    StrptimeSpaced(hour, " ", marker, HourMinute);
    AbsentHead(hour, ":");
  }

  lemma RejectSpacedMinute(hour: string, minute: string, marker: string)
    requires HourField(hour).Some? && AllDigits(minute) && MinuteField(minute).None?
    requires marker == "AM" || marker == "PM"
    ensures TimeOfString(hour + ":" + minute + " " + marker) == None
  {
    var c := hour + ":" + minute;
    assert ClockChars(c) && c != [];
    SpacedMarkerKept(c, marker);
    StrptimeSpaced(c, " ", marker, HourOnly);
    StrptimeSpaced(c, " ", marker, HourMinute);
    FirstIndexAfter(hour, ':', minute);
    assert c == hour + [':'] + minute;
    assert c[..|hour|] == hour && c[|hour| + 1..] == minute;
    assert HourField(c).None?;
  }

  /** Text with no digit followed by an upper-case marker is not changed by the normalisation. */
  lemma {:induction false} NoGluedUnchangedPrefix(s: string)
    requires forall i :: 0 <= i && i + 3 <= |s| ==> !GluedAt(s, i)
    ensures SpaceBeforeMeridiem(s) == s
    decreases |s|
  {
    if s != [] {
      if |s| >= 3 {
        assert !GluedAt(s, 0);
      }
      forall i | 0 <= i && i + 3 <= |s[1..]| ensures !GluedAt(s[1..], i) {
        assert !GluedAt(s, i + 1);
        assert s[1..][i + 1..i + 3] == s[i + 2..i + 4];
      }
      NoGluedUnchangedPrefix(s[1..]);
      assert s == s[..1] + s[1..];
    }
  }

  // ---------------------------------------------------------------------------
  // What parse_time_range accepts

  /** With exactly one '-', the two sides are stripped and parsed, the start side inheriting the end's marker. */
  lemma RangeOfSides(a: string, b: string)
    requires forall i :: 0 <= i < |a| ==> a[i] != '-'
    requires forall i :: 0 <= i < |b| ==> b[i] != '-'
    ensures ParseTimeRange(a + "-" + b) == (TimeOfString(InheritMeridiem(Strip(a), Strip(b))), TimeOfString(Strip(b)))
  {
    SplitAtOnly(a, '-', b);
  }

  /** A clock text of valid fields is digits and colons, starting and ending with a digit. */
  lemma ClockShape(hour: string, minute: string)
    requires HourField(hour).Some? && (minute == [] || MinuteField(minute).Some?)
    ensures Clock(hour, minute) != [] && ClockChars(Clock(hour, minute))
    ensures IsDigit(Clock(hour, minute)[0]) && IsDigit(Clock(hour, minute)[|Clock(hour, minute)| - 1])
  {
    var c := Clock(hour, minute);
    assert c[0] == hour[0];
    if minute != [] {
      assert c[|c| - 1] == minute[|minute| - 1];
    }
  }

  /** A text that cannot be mistaken by `parse_time_range`: no '-', no padding. */
  predicate RangeSide(s: string)
  {
    Unpadded(s) && forall i :: 0 <= i < |s| ==> s[i] != '-'
  }

  /** A clock text followed by a marker, glued or after a space, contains that marker and not the other one. */
  lemma MarkedShape(c: string, sep: string, marker: string)
    requires c != [] && ClockChars(c) && IsDigit(c[0])
    requires sep == "" || sep == " "
    requires marker == "AM" || marker == "PM"
    ensures RangeSide(c + sep + marker)
    ensures Contains(c + sep + marker, marker)
    ensures !Contains(c + sep + marker, if marker == "AM" then "PM" else "AM")
  {
    var s := c + sep + marker;
    assert s[|s| - 2..] == marker;
    ContainsAt(s, marker, |s| - 2);
    var other := if marker == "AM" then "PM" else "AM";
    forall i | 0 <= i < |s|
      ensures s[i] != '-' && s[i] != other[0]
    {
      if i < |c| {
        assert s[i] == c[i];
      } else if i < |c| + |sep| {
        assert s[i] == ' ';
      } else {
        assert s[i] == marker[i - |c| - |sep|];
      }
    }
    AbsentHead(s, other);
  }

  /** A side followed by a space is stripped back to itself and still holds no '-'. */
  lemma PadRight(s: string)
    requires RangeSide(s)
    ensures forall i :: 0 <= i < |s + " "| ==> (s + " ")[i] != '-'
    ensures Strip(s + " ") == s
  {
    var a := s + " ";
    forall i | 0 <= i < |a| ensures a[i] != '-' {
      if i < |s| {
        assert a[i] == s[i];
      }
    }
    assert [] + s + " " == a;
    StripPadded([], s, " ");
  }

  /** A side preceded by a space is stripped back to itself and still holds no '-'. */
  lemma PadLeft(s: string)
    requires RangeSide(s)
    ensures forall i :: 0 <= i < |" " + s| ==> (" " + s)[i] != '-'
    ensures Strip(" " + s) == s
  {
    var b := " " + s;
    forall i | 0 <= i < |b| ensures b[i] != '-' {
      if i > 0 {
        assert b[i] == s[i - 1];
      }
    }
    assert " " + s + [] == b;
    StripPadded(" ", s, []);
  }

  lemma SpacedDash(a: string, b: string)
    ensures a + " - " + b == (a + " ") + "-" + (" " + b)
  {
  }

  lemma PaddedSides(s1: string, s2: string)
    requires RangeSide(s1) && RangeSide(s2)
    ensures ParseTimeRange((s1 + " ") + "-" + (" " + s2)) == (TimeOfString(InheritMeridiem(s1, s2)), TimeOfString(s2))
  {
    PadRight(s1);
    PadLeft(s2);
    RangeOfSides(s1 + " ", " " + s2);
  }

  /** Two sides written around " - " are parsed separately, the start side inheriting as `parse_time_range` says. */
  lemma SidesAroundDash(s1: string, s2: string)
    requires RangeSide(s1) && RangeSide(s2)
    ensures ParseTimeRange(s1 + " - " + s2) == (TimeOfString(InheritMeridiem(s1, s2)), TimeOfString(s2))
  {
    PaddedSides(s1, s2);
    SpacedDash(s1, s2);
  }

  /** Two marked sides around " - " are parsed separately; the start side keeps its own marker. */
  lemma MarkedRange(s1: string, s2: string)
    requires RangeSide(s1) && RangeSide(s2)
    requires Contains(s1, "AM") || Contains(s1, "PM")
    ensures ParseTimeRange(s1 + " - " + s2) == (TimeOfString(s1), TimeOfString(s2))
  {
    SidesAroundDash(s1, s2);
  }

  /** A start side with no marker takes the marker that the end side contains. */
  lemma UnmarkedRange(c1: string, s2: string, marker: string)
    requires RangeSide(c1) && ClockChars(c1) && RangeSide(s2)
    requires marker == "AM" || marker == "PM"
    requires Contains(s2, marker) && !Contains(s2, if marker == "AM" then "PM" else "AM")
    ensures ParseTimeRange(c1 + " - " + s2) == (TimeOfString(c1 + " " + marker), TimeOfString(s2))
  {
    SidesAroundDash(c1, s2);
    UnmarkedClock(c1);
    assert InheritMeridiem(c1, s2) == c1 + " " + marker;
  }

  /** A clock text contains neither marker. */
  lemma UnmarkedClock(c: string)
    requires ClockChars(c)
    ensures !Contains(c, "AM") && !Contains(c, "PM")
  {
    assert forall i :: 0 <= i < |c| ==> c[i] != 'A' && c[i] != 'P';
    AbsentHead(c, "AM");
    AbsentHead(c, "PM");
  }

  /** Two fully spelled times around " - " give both times as written, whatever the markers. */
  lemma SpelledRange(h1: string, m1: string, g1: bool, k1: string, h2: string, m2: string, g2: bool, k2: string)
    requires HourField(h1).Some? && (m1 == [] || MinuteField(m1).Some?) && (k1 == "AM" || k1 == "PM")
    requires HourField(h2).Some? && (m2 == [] || MinuteField(m2).Some?) && (k2 == "AM" || k2 == "PM")
    ensures ParseTimeRange(Spelled(h1, m1, g1, k1) + " - " + Spelled(h2, m2, g2, k2))
         == (Some(ClockMinutes(h1, m1, k1 == "PM")), Some(ClockMinutes(h2, m2, k2 == "PM")))
  {
    ClockShape(h1, m1);
    ClockShape(h2, m2);
    MarkedShape(Clock(h1, m1), if g1 then "" else " ", k1);
    MarkedShape(Clock(h2, m2), if g2 then "" else " ", k2);
    MarkedRange(Spelled(h1, m1, g1, k1), Spelled(h2, m2, g2, k2));
    ParseSpelled(h1, m1, g1, k1);
    ParseSpelled(h2, m2, g2, k2);
  }

  /** A start side without a marker takes the end side's: "7 - 11 PM" runs from 19:00 to 23:00. */
  lemma InheritedRange(h1: string, m1: string, h2: string, m2: string, glued: bool, marker: string)
    requires HourField(h1).Some? && (m1 == [] || MinuteField(m1).Some?)
    requires HourField(h2).Some? && (m2 == [] || MinuteField(m2).Some?) && (marker == "AM" || marker == "PM")
    ensures ParseTimeRange(Clock(h1, m1) + " - " + Spelled(h2, m2, glued, marker))
         == (Some(ClockMinutes(h1, m1, marker == "PM")), Some(ClockMinutes(h2, m2, marker == "PM")))
  {
    ClockShape(h1, m1);
    ClockShape(h2, m2);
    MarkedShape(Clock(h2, m2), if glued then "" else " ", marker);
    UnmarkedRange(Clock(h1, m1), Spelled(h2, m2, glued, marker), marker);
    assert Clock(h1, m1) + " " + marker == Spelled(h1, m1, false, marker);
    ParseSpelled(h1, m1, false, marker);
    ParseSpelled(h2, m2, glued, marker);
  }

  /** The fields of the example times. */
  lemma ExampleFields()
    ensures HourField("1") == Some(1) && HourField("2") == Some(2) && HourField("3") == Some(3)
    ensures HourField("7") == Some(7) && HourField("9") == Some(9)
    ensures HourField("10") == Some(10) && HourField("11") == Some(11) && HourField("12") == Some(12)
    ensures MinuteField("15") == Some(15) && MinuteField("26") == Some(26) && MinuteField("30") == Some(30)
  {
  }

  /** The example ranges of helpers.py, as spelled times around " - ". */
  lemma ExampleTexts()
    ensures Spelled("1", "26", true, "PM") + " - " + Spelled("2", "30", true, "PM") == "1:26PM - 2:30PM"
    ensures Spelled("1", "26", false, "PM") + " - " + Spelled("2", "30", false, "PM") == "1:26 PM - 2:30 PM"
  {
  }

  lemma MoreExampleTexts()
    ensures Spelled("10", "", false, "AM") + " - " + Spelled("1", "", false, "PM") == "10 AM - 1 PM"
    ensures Spelled("10", "15", false, "AM") + " - " + Spelled("1", "26", false, "PM") == "10:15 AM - 1:26 PM"
    ensures Clock("7", "") + " - " + Spelled("11", "", false, "PM") == "7 - 11 PM"
    ensures Spelled("10", "", false, "PM") + " - " + Spelled("2", "", false, "AM") == "10 PM - 2 AM"
  {
  }

  /** Without a space before the markers (helpers.py example 1). */
  lemma GluedRangeExample()
    ensures ParseTimeRange("1:26PM - 2:30PM") == (Some(806), Some(870))
  {
    ExampleFields();
    SpelledRange("1", "26", true, "PM", "2", "30", true, "PM");
    ExampleTexts();
  }

  /** With a space before the markers (helpers.py example 2). */
  lemma SpacedRangeExample()
    ensures ParseTimeRange("1:26 PM - 2:30 PM") == (Some(806), Some(870))
  {
    ExampleFields();
    SpelledRange("1", "26", false, "PM", "2", "30", false, "PM");
    ExampleTexts();
  }

  /** Without minutes (helpers.py example 3). */
  lemma HoursOnlyRangeExample()
    ensures ParseTimeRange("10 AM - 1 PM") == (Some(600), Some(780))
  {
    ExampleFields();
    SpelledRange("10", "", false, "AM", "1", "", false, "PM");
    MoreExampleTexts();
  }

  /** With minutes on both sides (helpers.py example 4). */
  lemma MinutesRangeExample()
    ensures ParseTimeRange("10:15 AM - 1:26 PM") == (Some(615), Some(806))
  {
    ExampleFields();
    SpelledRange("10", "15", false, "AM", "1", "26", false, "PM");
    MoreExampleTexts();
  }

  /** The start side borrows PM from the end side (helpers.py example 5). */
  lemma InheritedRangeExample()
    ensures ParseTimeRange("7 - 11 PM") == (Some(1140), Some(1380))
  {
    ExampleFields();
    InheritedRange("7", "", "11", "", false, "PM");
    MoreExampleTexts();
  }

  lemma ShiftTexts()
    ensures Spelled("9", "", false, "AM") + " - " + Spelled("12", "", false, "PM") == "9 AM - 12 PM"
    ensures Spelled("12", "", false, "PM") + " - " + Spelled("3", "", false, "PM") == "12 PM - 3 PM"
  {
  }

  /** A morning shift ending at noon and an afternoon shift starting at noon. */
  lemma ShiftRanges()
    ensures ParseTimeRange("9 AM - 12 PM") == (Some(540), Some(720))
    ensures ParseTimeRange("12 PM - 3 PM") == (Some(720), Some(900))
  {
    ExampleFields();
    SpelledRange("9", "", false, "AM", "12", "", false, "PM");
    SpelledRange("12", "", false, "PM", "3", "", false, "PM");
    ShiftTexts();
  }

  // ---------------------------------------------------------------------------
  // is_time_in_interval

  /** Membership is the clockwise arc from start, included, to end, excluded, on the 24-hour dial. */
  lemma IntervalIsClockwiseArc(start: Minute, end: Minute, current: Minute)
    ensures IsTimeInInterval(start, end, current) <==> (current - start) % 1440 < (end - start) % 1440
  {
    if start <= end {
      assert (end - start) % 1440 == end - start;
      if current >= start {
        assert (current - start) % 1440 == current - start;
      } else {
        assert (current - start) % 1440 == current - start + 1440;
      }
    } else {
      assert (end - start) % 1440 == end - start + 1440;
      if current >= start {
        assert (current - start) % 1440 == current - start;
      } else {
        assert (current - start) % 1440 == current - start + 1440;
      }
    }
  }

  /** An interval that wraps past midnight is the complement of the plain interval between its ends. */
  lemma WrappedIsComplement(start: int, end: int, current: int)
    requires start > end
    ensures IsTimeInInterval(start, end, current) <==> !IsTimeInInterval(end, start, current)
  {
  }

  /** Equal ends denote the empty interval, not the whole day. */
  lemma EqualEndsEmpty(t: int, current: int)
    ensures !IsTimeInInterval(t, t, current)
  {
  }

  lemma {:induction false} MulMonotone(a: int, b: int, k: nat)
    requires a <= b
    ensures a * k <= b * k
  {
    assert b * k - a * k == (b - a) * k;
  }

  /**
   * The current time has seconds and microseconds while slot ends are whole minutes; comparing against the
   * minute it falls in loses nothing. `perMinute` is the number of ticks in a minute.
   */
  lemma WholeMinutesExact(start: int, end: int, ticks: nat, perMinute: nat)
    requires perMinute > 0
    ensures IsTimeInInterval(start * perMinute, end * perMinute, ticks) == IsTimeInInterval(start, end, ticks / perMinute)
    ensures start * perMinute > ticks <==> start > ticks / perMinute
  {
    var q, r := ticks / perMinute, ticks % perMinute;
    assert ticks == q * perMinute + r && 0 <= r < perMinute;
    forall x: int ensures x * perMinute <= ticks <==> x <= q {
      if x <= q {
        MulMonotone(x, q, perMinute);
      } else {
        MulMonotone(q + 1, x, perMinute);
        assert (q + 1) * perMinute == q * perMinute + perMinute;
      }
    }
    assert start * perMinute <= end * perMinute <==> start <= end by {
      if start <= end {
        MulMonotone(start, end, perMinute);
      } else {
        MulMonotone(end + 1, start, perMinute);
        assert (end + 1) * perMinute == end * perMinute + perMinute;
      }
    }
  }

  /** A slot from 10 PM to 2 AM wraps past midnight: it holds 23:30 and 01:00 but not 10:00. */
  lemma OvernightRange()
    ensures ParseTimeRange("10 PM - 2 AM") == (Some(1320), Some(120))
    ensures IsTimeInInterval(1320, 120, 23 * 60 + 30) && IsTimeInInterval(1320, 120, 60)
    ensures !IsTimeInInterval(1320, 120, 600)
  {
    ExampleFields();
    SpelledRange("10", "", false, "PM", "2", "", false, "AM");
    MoreExampleTexts();
  }
}
