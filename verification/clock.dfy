/** The two ways the client writes a length of time: formatDuration (the
    history list and the game-over dialog each define their own identical
    copy; the model merges them into one function) and the running timer's
    formatTime. Each is paired with a reader that recovers
    the fields it shows, so the text is unambiguous and shows the right
    numbers. */
module Clock {
  import opened Schema
  import opened Text

  // ------------------------------------------------------------ formatDuration

  /** "<m>m <s>s" or "<s>s". */
  function FormatDuration(ms: int): (r: string)
    ensures |r| >= 2 && r[|r| - 1] == 's'
  {
    var seconds := ms / 1000;
    var minutes := seconds / 60;
    if minutes > 0 then MinutesText(minutes, JsRem(seconds, 60)) else SecondsText(seconds)
  }

  function MinutesText(minutes: int, seconds: int): string {
    NumberText(minutes) + "m " + NumberText(seconds) + "s"
  }

  function SecondsText(seconds: int): string {
    NumberText(seconds) + "s"
  }

  datatype DurationFields = MinutesAndSeconds(minutes: int, seconds: int) | SecondsOnly(seconds: int)

  /** Reads back the fields of a duration text. */
  function ReadDuration(s: string): (r: Option<DurationFields>)
  {
    if s == [] || s[|s| - 1] != 's' then None
    else
      var body := s[..|s| - 1];
      match SplitFirst(body, ' ')
      case None =>
        (match ReadInt(body)
         case None => None
         case Some(sec) => Some(SecondsOnly(sec)))
      case Some((a, b)) =>
        if a == [] || a[|a| - 1] != 'm' then None
        else
          match (ReadInt(a[..|a| - 1]), ReadInt(b))
          case (Some(m), Some(sec)) => Some(MinutesAndSeconds(m, sec))
          case _ => None
  }

  /** A text "<a>m <b>s" with no space in a splits into a and b. */
  lemma ReadDurationTwoFields(a: string, b: string)
    requires ' ' !in a
    requires ReadInt(a).Some? && ReadInt(b).Some?
    ensures ReadDuration(a + "m " + b + "s") == Some(MinutesAndSeconds(ReadInt(a).value, ReadInt(b).value))
  {
    var r := a + "m " + b + "s";
    var am := a + "m";
    assert r[..|r| - 1] == am + [' '] + b;
    assert ' ' !in am by {
      forall i | 0 <= i < |am| ensures am[i] != ' ' {
        if i < |a| {
          assert am[i] == a[i];
        }
      }
    }
    SplitFirstOf(am, ' ', b);
    assert am[..|am| - 1] == a;
  }

  lemma MinutesTextRoundTrip(minutes: int, seconds: int)
    ensures ReadDuration(MinutesText(minutes, seconds)) == Some(MinutesAndSeconds(minutes, seconds))
  {
    NumberTextCharacters(minutes);
    var t := NumberText(minutes);
    assert ' ' !in t by {
      forall i | 0 <= i < |t| ensures t[i] != ' ' {
      }
    }
    NumberTextRoundTrip(minutes);
    NumberTextRoundTrip(seconds);
    ReadDurationTwoFields(t, NumberText(seconds));
  }

  lemma SecondsTextRoundTrip(seconds: int)
    ensures ReadDuration(SecondsText(seconds)) == Some(SecondsOnly(seconds))
  {
    var r := SecondsText(seconds);
    var body := NumberText(seconds);
    assert r[..|r| - 1] == body;
    NumberTextCharacters(seconds);
    assert ' ' !in body by {
      forall i | 0 <= i < |body| ensures body[i] != ' ' {
      }
    }
    NumberTextRoundTrip(seconds);
  }

  lemma WholeMinutes(ms: int)
    ensures ms / 1000 / 60 > 0 <==> ms >= 60000
    ensures ms / 1000 / 60 > 0 ==> ms / 1000 > 0
  {
  }

  /** A duration reads back as whole minutes and the remaining seconds once
      it reaches a minute, and as whole seconds before that (negative ones
      included, as Math.floor gives them). */
  lemma FormatDurationRoundTrip(ms: int)
    ensures ms >= 60000 ==>
              ReadDuration(FormatDuration(ms)) == Some(MinutesAndSeconds(ms / 1000 / 60, ms / 1000 % 60))
    ensures ms < 60000 ==> ReadDuration(FormatDuration(ms)) == Some(SecondsOnly(ms / 1000))
  {
    WholeMinutes(ms);
    var seconds := ms / 1000;
    if seconds / 60 > 0 {
      MinutesTextRoundTrip(seconds / 60, JsRem(seconds, 60));
    } else {
      SecondsTextRoundTrip(seconds);
    }
  }

  /** The exact text: from a minute on, the whole minutes and the remaining
      seconds as their plain digits, neither padded; before that the whole
      seconds, with a minus sign for a negative duration. */
  lemma FormatDurationForms(ms: int)
    ensures ms >= 60000 ==>
              FormatDuration(ms) == Digits(ms / 1000 / 60) + "m " + Digits(ms / 1000 % 60) + "s"
    ensures 0 <= ms < 60000 ==> FormatDuration(ms) == Digits(ms / 1000) + "s"
    ensures ms < 0 ==> FormatDuration(ms) == "-" + Digits(-(ms / 1000)) + "s"
  {
    WholeMinutes(ms);
    if ms >= 60000 {
      assert JsRem(ms / 1000, 60) == ms / 1000 % 60;
    }
  }

  /** In the minutes form the seconds shown are below 60. */
  lemma FormatDurationSecondsBelowMinute(ms: int)
    ensures ReadDuration(FormatDuration(ms)).Some?
    ensures ReadDuration(FormatDuration(ms)).value.MinutesAndSeconds? ==>
              0 <= ReadDuration(FormatDuration(ms)).value.seconds < 60
              && ReadDuration(FormatDuration(ms)).value.minutes >= 1
  {
    FormatDurationRoundTrip(ms);
  }

  // ---------------------------------------------------------------- formatTime

  /** "<h>:<mm>:<ss>" from an hour on, "<m>:<ss>" before. */
  function FormatTime(ms: int): (r: string)
    ensures |r| >= 4 && ':' in r
  {
    var seconds := ms / 1000;
    var minutes := seconds / 60;
    var hours := minutes / 60;
    if hours > 0 then HoursText(hours, JsRem(minutes, 60), JsRem(seconds, 60))
    else ClockText(minutes, JsRem(seconds, 60))
  }

  function HoursText(hours: int, minutes: int, seconds: int): string {
    NumberText(hours) + [':'] + (PadStart2(NumberText(minutes)) + [':'] + PadStart2(NumberText(seconds)))
  }

  function ClockText(minutes: int, seconds: int): string {
    NumberText(minutes) + [':'] + PadStart2(NumberText(seconds))
  }

  datatype ClockFields =
    | HoursMinutesSeconds(hours: int, minutes: int, seconds: int)
    | MinutesSecondsClock(minutes: int, seconds: int)

  /** Reads back the fields of a timer text. */
  function ReadClock(s: string): (r: Option<ClockFields>)
  {
    match SplitFirst(s, ':')
    case None => None
    case Some((a, rest)) =>
      match SplitFirst(rest, ':')
      case None =>
        (match (ReadInt(a), ReadInt(rest))
         case (Some(m), Some(sec)) => Some(MinutesSecondsClock(m, sec))
         case _ => None)
      case Some((b, c)) =>
        match (ReadInt(a), ReadInt(b), ReadInt(c))
        case (Some(h), Some(m), Some(sec)) => Some(HoursMinutesSeconds(h, m, sec))
        case _ => None
  }

  lemma NoColonInNumber(x: int)
    ensures ':' !in NumberText(x) && ':' !in PadStart2(NumberText(x))
  {
    NumberTextCharacters(x);
    PaddedNumberCharacters(x);
    var t := NumberText(x);
    var p := PadStart2(t);
    assert forall i :: 0 <= i < |t| ==> t[i] != ':';
    assert forall i :: 0 <= i < |p| ==> p[i] != ':';
  }

  /** A text with two colons splits into its three fields. */
  lemma ReadClockThreeFields(a: string, b: string, c: string)
    requires ':' !in a && ':' !in b
    requires ReadInt(a).Some? && ReadInt(b).Some? && ReadInt(c).Some?
    ensures ReadClock(a + [':'] + (b + [':'] + c))
            == Some(HoursMinutesSeconds(ReadInt(a).value, ReadInt(b).value, ReadInt(c).value))
  {
    SplitFirstOf(a, ':', b + [':'] + c);
    SplitFirstOf(b, ':', c);
  }

  lemma HoursTextRoundTrip(hours: int, minutes: int, seconds: int)
    ensures ReadClock(HoursText(hours, minutes, seconds)) == Some(HoursMinutesSeconds(hours, minutes, seconds))
  {
    var h := NumberText(hours);
    var mm := PadStart2(NumberText(minutes));
    var ss := PadStart2(NumberText(seconds));
    NoColonInNumber(hours);
    NoColonInNumber(minutes);
    NumberTextRoundTrip(hours);
    PaddedNumberRoundTrip(minutes);
    PaddedNumberRoundTrip(seconds);
    ReadClockThreeFields(h, mm, ss);
  }

  /** A text with one colon splits into its two fields. */
  lemma ReadClockTwoFields(a: string, b: string)
    requires ':' !in a && ':' !in b
    requires ReadInt(a).Some? && ReadInt(b).Some?
    ensures ReadClock(a + [':'] + b) == Some(MinutesSecondsClock(ReadInt(a).value, ReadInt(b).value))
  {
    SplitFirstOf(a, ':', b);
  }

  lemma ClockTextRoundTrip(minutes: int, seconds: int)
    ensures ReadClock(ClockText(minutes, seconds)) == Some(MinutesSecondsClock(minutes, seconds))
  {
    NoColonInNumber(minutes);
    NoColonInNumber(seconds);
    NumberTextRoundTrip(minutes);
    PaddedNumberRoundTrip(seconds);
    ReadClockTwoFields(NumberText(minutes), PadStart2(NumberText(seconds)));
  }

  lemma WholeHours(ms: int)
    ensures ms / 1000 / 60 / 60 > 0 <==> ms >= 3600000
    ensures ms / 1000 / 60 / 60 > 0 ==> ms / 1000 / 60 > 0 && ms / 1000 > 0
  {
  }

  /** The timer reads back as hours, minutes and seconds from an hour on and
      as minutes and seconds before; the seconds shown are the JavaScript
      remainder, which is the usual one for a clock that has not gone back. */
  lemma FormatTimeRoundTrip(ms: int)
    ensures ms >= 3600000 ==>
              ReadClock(FormatTime(ms))
              == Some(HoursMinutesSeconds(ms / 1000 / 60 / 60, ms / 1000 / 60 % 60, ms / 1000 % 60))
    ensures ms < 3600000 ==>
              ReadClock(FormatTime(ms)) == Some(MinutesSecondsClock(ms / 1000 / 60, JsRem(ms / 1000, 60)))
    ensures 0 <= ms < 3600000 ==>
              ReadClock(FormatTime(ms)) == Some(MinutesSecondsClock(ms / 1000 / 60, ms / 1000 % 60))
  {
    WholeHours(ms);
    var seconds := ms / 1000;
    var minutes := seconds / 60;
    if minutes / 60 > 0 {
      HoursTextRoundTrip(minutes / 60, JsRem(minutes, 60), JsRem(seconds, 60));
    } else {
      ClockTextRoundTrip(minutes, JsRem(seconds, 60));
    }
  }

  /** Below an hour the minutes are written as plain digits, with no padding
      and no leading zero (unless they are 0): under ten minutes the text is
      four characters long. */
  lemma FormatTimeShortForm(ms: int)
    requires 0 <= ms < 3600000
    ensures var m := ms / 1000 / 60;
            var r := FormatTime(ms);
            && r == Digits(m) + [':'] + PadStart2(NumberText(ms / 1000 % 60))
            && (Digits(m)[0] == '0' <==> m == 0)
            && |r| == |Digits(m)| + 3
            && (ms < 600000 <==> |r| == 4)
  {
    WholeHours(ms);
    var sec := ms / 1000 % 60;
    assert JsRem(ms / 1000, 60) == sec;
    PaddedNumberCharacters(sec);
  }

  /** From an hour on, the hours are their plain digits and the minutes and
      seconds are each padded to exactly two digits. */
  lemma FormatTimeLongForm(ms: int)
    requires ms >= 3600000
    ensures var h := ms / 1000 / 60 / 60;
            var mm := PadStart2(NumberText(ms / 1000 / 60 % 60));
            var ss := PadStart2(NumberText(ms / 1000 % 60));
            && FormatTime(ms) == Digits(h) + [':'] + (mm + [':'] + ss)
            && Digits(h)[0] != '0'
            && |mm| == 2 && AllDigits(mm)
            && |ss| == 2 && AllDigits(ss)
  {
    WholeHours(ms);
    var minutes := ms / 1000 / 60;
    assert JsRem(ms / 1000, 60) == ms / 1000 % 60;
    assert JsRem(minutes, 60) == minutes % 60;
    PaddedNumberCharacters(minutes % 60);
    PaddedNumberCharacters(ms / 1000 % 60);
  }

  /** A text that ends in a colon and a two-digit field. */
  lemma EndsWithColonAndPair(front: string, pair: string)
    requires |pair| == 2 && AllDigits(pair)
    ensures var r := front + [':'] + pair;
            r[|r| - 3] == ':' && IsDigit(r[|r| - 2]) && IsDigit(r[|r| - 1])
  {
    var r := front + [':'] + pair;
    assert r[|r| - 2] == pair[0] && r[|r| - 1] == pair[1];
  }

  /** Once the clock has not gone back, the text ends in a colon and exactly
      two digits of seconds. */
  lemma FormatTimeEndsWithTwoDigitSeconds(ms: int)
    requires ms >= 0
    ensures var r := FormatTime(ms);
            |r| >= 4 && r[|r| - 3] == ':' && IsDigit(r[|r| - 2]) && IsDigit(r[|r| - 1])
  {
    var seconds := ms / 1000;
    var minutes := seconds / 60;
    var sec := JsRem(seconds, 60);
    var ss := PadStart2(NumberText(sec));
    PaddedNumberCharacters(sec);
    if minutes / 60 > 0 {
      var hh := NumberText(minutes / 60);
      var mm := PadStart2(NumberText(JsRem(minutes, 60)));
      assert FormatTime(ms) == HoursText(minutes / 60, JsRem(minutes, 60), sec);
      EndsWithColonAndPair(mm, ss);
      var tail := mm + [':'] + ss;
      assert (hh + [':'] + tail)[|hh| + 1 + |tail| - 3..] == tail[|tail| - 3..];
    } else {
      assert FormatTime(ms) == ClockText(minutes, sec);
      EndsWithColonAndPair(NumberText(minutes), ss);
    }
  }
}
