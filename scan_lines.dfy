/** The patterns the disc scan looks for in each line of HandBrakeCLI's scan output,
    in the priority order of the `if`/`elsif` chain of the line handler. */
module ScanLines {
  import opened Wrappers
  import opened Text

  /** The kind of item a section header announces (the `title_data_class` local). */
  datatype DataClass = ChapterData | AudioTrackData | SubtitleTrackData

  /** How the `elsif` chain classifies a line. */
  datatype LineKind =
    | ScanDone
    | TitleLine(number: nat)
    | Header(cls: DataClass)
    | DataLine(number: nat, rest: string)
    | Other

  /** The literal lit occurs in s at position p. */
  predicate HasAt(s: string, p: nat, lit: string)
  {
    p + |lit| <= |s| && s[p..p + |lit|] == lit
  }

  /** A match of `pre(\d+)suf` at position p, with the digits' value. Because neither pre
      ends nor suf starts with a digit, greedy `\d+` with backtracking matches exactly
      when the maximal digit run is followed by suf. */
  function NumberAt(s: string, p: nat, pre: string, suf: string): (r: Option<nat>)
    ensures r.Some? ==> HasAt(s, p, pre)
  {
    if HasAt(s, p, pre) then
      var k := DigitRun(s, p + |pre|);
      if k > 0 && HasAt(s, p + |pre| + k, suf) then Some(DigitsValue(s[p + |pre|..p + |pre| + k])) else None
    else None
  }

  /** The regex `pre(\d+)suf` read literally at p: pre, then k > 0 digits, then suf. */
  ghost predicate NumberMatch(s: string, p: nat, pre: string, suf: string, k: nat)
  {
    var q := p + |pre|;
    HasAt(s, p, pre) && k > 0 && q + k <= |s| && AllDigits(s[q..q + k]) && HasAt(s, q + k, suf)
  }

  /** When suf starts with a non-digit (as every suffix the scan uses does), NumberAt
      matches exactly when the regex does, and its value is the `to_i` of the digits
      the regex captures, whichever way of matching is taken. */
  lemma NumberAtMatch(s: string, p: nat, pre: string, suf: string)
    requires suf != [] && !IsDigit(suf[0])
    ensures NumberAt(s, p, pre, suf).Some? <==> exists k :: NumberMatch(s, p, pre, suf, k)
    ensures forall k :: NumberMatch(s, p, pre, suf, k) ==>
      NumberAt(s, p, pre, suf) == Some(DigitsValue(s[p + |pre|..p + |pre| + k]))
  {
    var q: nat := p + |pre|;
    if HasAt(s, p, pre) {
      var run := DigitRun(s, q);
      forall k | NumberMatch(s, p, pre, suf, k)
        ensures k == run
      {
        assert s[q + k] == suf[0];
        forall j | q <= j < q + k
          ensures IsDigit(s[j])
        {
          assert s[j] == s[q..q + k][j - q];
        }
        DigitRunUnique(s, q, k);
      }
      if NumberAt(s, p, pre, suf).Some? {
        assert NumberMatch(s, p, pre, suf, run);
      }
    }
  }

  /** `/Disc has (\d+) title/` at p. */
  function DiscHasAt(s: string, p: nat): Option<nat> { NumberAt(s, p, "Disc has ", " title") }

  /** `/Scanning title (\d+) of/` at p. */
  function ScanningAt(s: string, p: nat): Option<nat> { NumberAt(s, p, "Scanning title ", " of") }

  /** `/scan thread found \d+ valid title/` at p. */
  function ScanDoneAt(s: string, p: nat): Option<nat> { NumberAt(s, p, "scan thread found ", " valid title") }

  /** `/\+ title (\d+):/` at p. */
  function TitleAt(s: string, p: nat): Option<nat> { NumberAt(s, p, "+ title ", ":") }

  /** `/\+ (chapters|(audio|subtitle) tracks):/` at p. */
  function HeaderAt(s: string, p: nat): Option<DataClass>
  {
    if HasAt(s, p, "+ chapters:") then Some(ChapterData)
    else if HasAt(s, p, "+ audio tracks:") then Some(AudioTrackData)
    else if HasAt(s, p, "+ subtitle tracks:") then Some(SubtitleTrackData)
    else None
  }

  /** The title count a line announces: `line[/Disc has (\d+) title/, 1]`, converted. */
  function DiscHasCount(line: string): Option<nat> { FindFirst(line, 0, DiscHasAt) }

  /** The title a line says is being scanned: `line[/Scanning title (\d+) of/, 1]`, converted. */
  function ScanningTitle(line: string): Option<nat> { FindFirst(line, 0, ScanningAt) }

  /** `/^ {4}\+ (\d+)[:,] (.*)$/` on a line without its terminator: the number and the rest. */
  function DataLineMatch(s: string): (r: Option<(nat, string)>)
    ensures r.Some? ==> HasAt(s, 0, "    + ") && |r.value.1| + 8 <= |s| && s[|s| - |r.value.1|..] == r.value.1
  {
    if HasAt(s, 0, "    + ") then
      var k := DigitRun(s, 6);
      var e := 6 + k;
      if k > 0 && e + 2 <= |s| && (s[e] == ':' || s[e] == ',') && s[e + 1] == ' '
      then Some((DigitsValue(s[6..e]), s[e + 2..]))
      else None
    else None
  }

  /** The regex `^ {4}\+ (\d+)[:,] (.*)$` read literally, with k digits captured. */
  ghost predicate DataMatch(s: string, k: nat)
  {
    HasAt(s, 0, "    + ") && k > 0 && 8 + k <= |s| && AllDigits(s[6..6 + k])
    && (s[6 + k] == ':' || s[6 + k] == ',') && s[7 + k] == ' '
  }

  /** DataLineMatch matches exactly when the regex does; the number is the `to_i` of
      the captured digits and the rest is everything after the `: ` or `, `. */
  lemma DataLineMatchIff(s: string)
    ensures DataLineMatch(s).Some? <==> exists k :: DataMatch(s, k)
    ensures forall k :: DataMatch(s, k) ==> DataLineMatch(s) == Some((DigitsValue(s[6..6 + k]), s[8 + k..]))
  {
    if HasAt(s, 0, "    + ") {
      var run := DigitRun(s, 6);
      forall k | DataMatch(s, k)
        ensures k == run
      {
        forall j | 6 <= j < 6 + k
          ensures IsDigit(s[j])
        {
          assert s[j] == s[6..6 + k][j - 6];
        }
        DigitRunUnique(s, 6, k);
      }
      if DataLineMatch(s).Some? {
        assert DataMatch(s, run);
      }
    }
  }

  /** The `elsif` chain of the line handler, first match wins. */
  function Classify(line: string): LineKind
  {
    if FindFirst(line, 0, ScanDoneAt).Some? then ScanDone
    else if FindFirst(line, 0, TitleAt).Some? then TitleLine(FindFirst(line, 0, TitleAt).value)
    else if FindFirst(line, 0, HeaderAt).Some? then Header(FindFirst(line, 0, HeaderAt).value)
    else if DataLineMatch(line).Some? then DataLine(DataLineMatch(line).value.0, DataLineMatch(line).value.1)
    else Other
  }

  /** The pattern matched by m occurs somewhere in s. */
  ghost predicate Occurs<T>(s: string, m: (string, nat) -> Option<T>)
  {
    exists p :: 0 <= p <= |s| && m(s, p).Some?
  }

  /** The priority order of the chain: each kind is chosen exactly when its pattern
      occurs and no earlier one does. */
  lemma ClassifyPriority(line: string)
    ensures Classify(line) == ScanDone <==> Occurs(line, ScanDoneAt)
    ensures Classify(line).TitleLine? <==> !Occurs(line, ScanDoneAt) && Occurs(line, TitleAt)
    ensures Classify(line).Header? <==>
      !Occurs(line, ScanDoneAt) && !Occurs(line, TitleAt) && Occurs(line, HeaderAt)
    ensures Classify(line).DataLine? <==>
      !Occurs(line, ScanDoneAt) && !Occurs(line, TitleAt) && !Occurs(line, HeaderAt) && DataLineMatch(line).Some?
  {
    FindFirstOccurs(line, ScanDoneAt);
    FindFirstOccurs(line, TitleAt);
    FindFirstOccurs(line, HeaderAt);
  }

  lemma FindFirstOccurs<T>(s: string, m: (string, nat) -> Option<T>)
    ensures FindFirst(s, 0, m).Some? <==> Occurs(s, m)
  {
    FindFirstNone(s, 0, m);
  }

  /** `/duration (\d\d):(\d\d):(\d\d)/` at p: the duration in seconds. */
  function DurationAt(s: string, p: nat): (r: Option<nat>)
    ensures r.Some? ==> r.value <= 99 * 3600 + 99 * 60 + 99
  {
    if HasAt(s, p, "duration ") && p + 17 <= |s|
       && IsDigit(s[p + 9]) && IsDigit(s[p + 10]) && s[p + 11] == ':'
       && IsDigit(s[p + 12]) && IsDigit(s[p + 13]) && s[p + 14] == ':'
       && IsDigit(s[p + 15]) && IsDigit(s[p + 16])
    then Some(TwoDigits(s[p + 9], s[p + 10]) * 3600 + TwoDigits(s[p + 12], s[p + 13]) * 60 + TwoDigits(s[p + 15], s[p + 16]))
    else None
  }

  /** The regex `duration (\d\d):(\d\d):(\d\d)` read literally at p. */
  ghost predicate DurationMatch(s: string, p: nat)
  {
    HasAt(s, p, "duration ") && p + 17 <= |s|
    && AllDigits(s[p + 9..p + 11]) && s[p + 11] == ':'
    && AllDigits(s[p + 12..p + 14]) && s[p + 14] == ':'
    && AllDigits(s[p + 15..p + 17])
  }

  /** DurationAt matches exactly when the regex does, and its value is hours * 3600 +
      minutes * 60 + seconds of the three captured groups (`to_i` each). */
  lemma DurationAtMatch(s: string, p: nat)
    ensures DurationAt(s, p).Some? <==> DurationMatch(s, p)
    ensures DurationMatch(s, p) ==>
      (DurationAt(s, p).value ==
       DigitsValue(s[p + 9..p + 11]) * 3600 + DigitsValue(s[p + 12..p + 14]) * 60 + DigitsValue(s[p + 15..p + 17]))
  {
    if p + 17 <= |s| {
      var h, m, c := s[p + 9..p + 11], s[p + 12..p + 14], s[p + 15..p + 17];
      assert h == [s[p + 9], s[p + 10]] && m == [s[p + 12], s[p + 13]] && c == [s[p + 15], s[p + 16]];
      if DurationMatch(s, p) {
        TwoDigitsValue(h);
        TwoDigitsValue(m);
        TwoDigitsValue(c);
      }
    }
  }

  lemma TwoDigitsValue(d: string)
    requires |d| == 2 && AllDigits(d)
    ensures DigitsValue(d) == TwoDigits(d[0], d[1])
  {
    var a := d[..1];
    assert a[..0] == [] && a[0] == d[0];
    assert DigitsValue(a) == DigitValue(d[0]);
    assert DigitsValue(d) == DigitsValue(a) * 10 + DigitValue(d[1]);
  }

  function TwoDigits(a: char, b: char): (r: nat)
    requires IsDigit(a) && IsDigit(b)
    ensures r <= 99
  {
    DigitValue(a) * 10 + DigitValue(b)
  }

  /** `Chapter#initialize`: the duration of the first `duration HH:MM:SS` in the text,
      or 0 when there is none. */
  function ChapterDuration(data: string): nat
  {
    match FindFirst(data, 0, DurationAt)
    case Some(d) => d
    case None => 0
  }

  /** Two-digit fields bound a chapter's duration. */
  lemma ChapterDurationBound(data: string)
    ensures ChapterDuration(data) <= 99 * 3600 + 99 * 60 + 99
  {
    if FindFirst(data, 0, DurationAt).Some? {
      var q := FindFirstSome(data, 0, DurationAt);
    }
  }

  /** Without a duration text a chapter lasts 0 seconds. */
  lemma ChapterDurationNone(data: string)
    requires forall p :: 0 <= p <= |data| ==> DurationAt(data, p).None?
    ensures ChapterDuration(data) == 0
  {
    FindFirstNone(data, 0, DurationAt);
  }

  /** The leftmost duration text decides a chapter's duration. */
  lemma ChapterDurationLeftmost(data: string, p: nat)
    requires p <= |data| && DurationAt(data, p).Some?
    requires forall q :: 0 <= q < p ==> DurationAt(data, q).None?
    ensures ChapterDuration(data) == DurationAt(data, p).value
  {
    FindFirstAt(data, 0, DurationAt, p);
  }

  /** The duration read from a chapter's text. */
  lemma ChapterDurationExample()
    ensures ChapterDuration("duration 00:10:30") == 630
  {
    ChapterDurationLeftmost("duration 00:10:30", 0);
  }
}
