/** `Media#duration_s`: a duration in seconds as `[Hh ]MMm SSs`. */
module Media {
  import opened Wrappers
  import opened Text

  /** `'%02d' % n` for n < 100. */
  function Pad2(n: nat): (s: string)
    requires n < 100
    ensures |s| == 2 && AllDigits(s) && DigitsValue(s) == n
  {
    if n < 10 then
      var s := "0" + NatStr(n);
      assert s[..1] == "0";
      s
    else
      var s := NatStr(n);
      assert |NatStr(n / 10)| == 1;
      s
  }

  /** `duration_s`: minutes and seconds by `divmod 60`, then hours and minutes by
      `divmod 60`. */
  function DurationText(d: nat): string
  {
    var minutes, seconds := d / 60, d % 60;
    var hours, mins := minutes / 60, minutes % 60;
    Clock(hours, mins, seconds)
  }

  /** `"%02dm %02ds"`, with `"%sh "` in front only when there is at least one hour. */
  function Clock(hours: nat, mins: nat, seconds: nat): string
    requires mins < 60 && seconds < 60
  {
    var ret := Pad2(mins) + "m " + Pad2(seconds) + "s";
    if hours > 0 then NatStr(hours) + "h " + ret else ret
  }

  /** A reader for that format: the last seven characters are `MMm SSs` with
      minutes and seconds under 60, and whatever precedes them is empty or a number of
      hours followed by `h `. */
  function ReadDuration(s: string): Option<nat>
  {
    if |s| < 7 then None
    else
      match (ReadHours(s[..|s| - 7]), ReadMinutes(s[|s| - 7..]))
      case (Some(h), Some(ms)) => Some(h * 3600 + ms)
      case _ => None
  }

  /** `MMm SSs`, as seconds. */
  function ReadMinutes(t: string): Option<nat>
    requires |t| == 7
  {
    if !(AllDigits(t[..2]) && t[2..4] == "m " && AllDigits(t[4..6]) && t[6] == 's') then None
    else
      var m, sec := DigitsValue(t[..2]), DigitsValue(t[4..6]);
      if m >= 60 || sec >= 60 then None else Some(m * 60 + sec)
  }

  /** Nothing, or `Hh `. */
  function ReadHours(h: string): Option<nat>
  {
    if h == [] then Some(0)
    else if |h| >= 3 && h[|h| - 2..] == "h " && AllDigits(h[..|h| - 2]) then Some(DigitsValue(h[..|h| - 2]))
    else None
  }

  lemma ReadMinutesText(mins: nat, seconds: nat)
    requires mins < 60 && seconds < 60
    ensures var t := Pad2(mins) + "m " + Pad2(seconds) + "s";
      |t| == 7 && ReadMinutes(t) == Some(mins * 60 + seconds)
  {
    var t := Pad2(mins) + "m " + Pad2(seconds) + "s";
    assert t[..2] == Pad2(mins) && t[2..4] == "m " && t[4..6] == Pad2(seconds) && t[6] == 's';
  }

  lemma ReadHoursText(hours: nat)
    ensures ReadHours(if hours > 0 then NatStr(hours) + "h " else "") == Some(hours)
  {
    if hours > 0 {
      var h := NatStr(hours) + "h ";
      assert h[..|h| - 2] == NatStr(hours);
      assert h[|h| - 2..] == "h ";
    }
  }

  lemma ReadClock(hours: nat, mins: nat, seconds: nat)
    requires mins < 60 && seconds < 60
    ensures ReadDuration(Clock(hours, mins, seconds)) == Some(hours * 3600 + mins * 60 + seconds)
  {
    var ret := Pad2(mins) + "m " + Pad2(seconds) + "s";
    ReadMinutesText(mins, seconds);
    var head := if hours > 0 then NatStr(hours) + "h " else "";
    ReadHoursText(hours);
    ReadSplit(head, ret);
  }

  /** The reader splits off the last seven characters. */
  lemma ReadSplit(head: string, ret: string)
    requires |ret| == 7
    ensures ReadDuration(head + ret) ==
      match (ReadHours(head), ReadMinutes(ret))
      case (Some(h), Some(ms)) => Some(h * 3600 + ms)
      case _ => None
  {
    var s := head + ret;
    assert s[..|s| - 7] == head && s[|s| - 7..] == ret;
  }

  lemma SplitSeconds(d: nat)
    ensures d == (d / 60 / 60) * 3600 + (d / 60 % 60) * 60 + d % 60
  {
    var minutes := d / 60;
    assert d == minutes * 60 + d % 60;
    assert minutes == (minutes / 60) * 60 + minutes % 60;
  }

  /** The printed duration reads back as the duration: `duration_s` loses nothing. */
  lemma ReadDurationText(d: nat)
    ensures ReadDuration(DurationText(d)) == Some(d)
  {
    ReadClock(d / 60 / 60, d / 60 % 60, d % 60);
    SplitSeconds(d);
  }

  /** So different durations print differently. */
  lemma DurationTextInjective(a: nat, b: nat)
    requires DurationText(a) == DurationText(b)
    ensures a == b
  {
    ReadDurationText(a);
    ReadDurationText(b);
  }

  /** The hour part appears exactly from one hour on. */
  lemma DurationTextHours(d: nat)
    ensures |DurationText(d)| == 7 <==> d < 3600
  {
  }
}
