/** The disc model the scan builds (Disc, Title, Chapter, AudioTrack, SubtitleTrack) as
    values, and the line handler of `Disc#initialize` as a state machine over them.
    The classes in module Discs are proved to follow this machine. */
module DiscModel {
  import opened Wrappers
  import opened Text
  import opened ScanLines

  /** A `TitleData` value: a chapter, audio track or subtitle track, tagged with the
      class it was built as, its number and the rest of its line. */
  datatype TitleData = TitleData(kind: DataClass, number: nat, data: string)

  /** `Title#duration`: the chapters' durations added from the left, as `inject(0)` does. */
  function ChaptersDuration(cs: seq<TitleData>): nat
  {
    if cs == [] then 0 else ChaptersDuration(cs[..|cs| - 1]) + ChapterDuration(cs[|cs| - 1].data)
  }

  /** The value of a `Title` object: its tool-reported number, its position in the
      disc's title list, and its three item lists. */
  datatype TitleInfo = TitleInfo(
    number: nat,
    index: nat,
    chapters: seq<TitleData>,
    audioTracks: seq<TitleData>,
    subtitleTracks: seq<TitleData>)
  {
    function Duration(): nat { ChaptersDuration(chapters) }

    /** `Title#add_data`: the item goes to the list of its own class. */
    function AddData(d: TitleData): TitleInfo
    {
      match d.kind
      case ChapterData => this.(chapters := chapters + [d])
      case SubtitleTrackData => this.(subtitleTracks := subtitleTracks + [d])
      case AudioTrackData => this.(audioTracks := audioTracks + [d])
    }

    /** The list that holds items of class c. */
    function Items(c: DataClass): seq<TitleData>
    {
      match c
      case ChapterData => chapters
      case AudioTrackData => audioTracks
      case SubtitleTrackData => subtitleTracks
    }
  }

  /** `Title.new(number, index)`. */
  function NewTitle(number: nat, index: nat): TitleInfo
  {
    TitleInfo(number, index, [], [], [])
  }

  /** `Disc#duration`: the titles' durations added from the left. */
  function DiscDuration(ts: seq<TitleInfo>): nat
  {
    if ts == [] then 0 else DiscDuration(ts[..|ts| - 1]) + ts[|ts| - 1].Duration()
  }

  /** Why the line handler raises: `nil.new` when no header has been seen since the
      last title line, `nil.add_data` when no title has been seen at all. */
  datatype ScanError = NoDataClass | NoTitle

  /** The disc's fields during the scan, with the handler's `title_data_class` local. */
  datatype ScanState = ScanState(
    titles: seq<TitleInfo>,
    dataClass: Option<DataClass>,
    titleCount: Option<nat>,
    titlesScanned: nat)

  /** The state before the first line: `@titles = []`, `@titles_scanned = 0`, the rest nil. */
  const Initial := ScanState([], None, None, 0)

  /** The effect of `title_count=`: the first announced count sticks. */
  function CountAfter(count: Option<nat>, value: Option<nat>): Option<nat>
  {
    if count.Some? || value.None? then count else value
  }

  /** The effect of `titles_scanned=`: raised to `[value.to_i, @title_count.to_i].min`,
      never lowered. */
  function ScannedAfter(scanned: nat, count: Option<nat>, value: Option<nat>): nat
  {
    Max(scanned, Min(ToI(value), ToI(count)))
  }

  /** The item appended to the last title. */
  function AddToLast(ts: seq<TitleInfo>, d: TitleData): seq<TitleInfo>
    requires ts != []
  {
    ts[..|ts| - 1] + [ts[|ts| - 1].AddData(d)]
  }

  /** The two counter updates every line makes first. */
  function Counted(s: ScanState, line: string): ScanState
  {
    var count := CountAfter(s.titleCount, DiscHasCount(line));
    s.(titleCount := count, titlesScanned := ScannedAfter(s.titlesScanned, count, ScanningTitle(line)))
  }

  /** The `elsif` chain on a line. */
  function Dispatch(s: ScanState, line: string): Result<ScanState, ScanError>
  {
    match Classify(line)
    case ScanDone => Ok(s)
    case TitleLine(n) => Ok(s.(titles := s.titles + [NewTitle(n, |s.titles|)], dataClass := None))
    case Header(c) => Ok(s.(dataClass := Some(c)))
    case DataLine(n, rest) =>
      if s.dataClass.None? then Err(NoDataClass)
      else if s.titles == [] then Err(NoTitle)
      else Ok(s.(titles := AddToLast(s.titles, TitleData(s.dataClass.value, n, rest))))
    case Other => Ok(s)
  }

  /** One line of scan output: the two counter updates, then the `elsif` chain. */
  function Step(s: ScanState, line: string): Result<ScanState, ScanError>
  {
    Dispatch(Counted(s, line), line)
  }

  /** The lines in order; the first error ends the scan. */
  function Run(s: ScanState, lines: seq<string>): Result<ScanState, ScanError>
    decreases |lines|
  {
    if lines == [] then Ok(s)
    else
      match Run(s, lines[..|lines| - 1])
      case Ok(s') => Step(s', lines[|lines| - 1])
      case Err(e) => Err(e)
  }

  /** One more line of the scan. */
  lemma RunNext(s: ScanState, lines: seq<string>, i: nat)
    requires i < |lines|
    ensures Run(s, lines[..i]).Ok? ==> Run(s, lines[..i + 1]) == Step(Run(s, lines[..i]).value, lines[i])
    ensures Run(s, lines[..i]).Err? ==> Run(s, lines[..i + 1]) == Run(s, lines[..i])
  {
    assert lines[..i + 1][..i] == lines[..i];
  }

  /** Once a line has raised, later lines are never read. */
  lemma {:induction false} RunErrSticks(s: ScanState, lines: seq<string>, k: nat)
    requires k <= |lines| && Run(s, lines[..k]).Err?
    ensures Run(s, lines) == Run(s, lines[..k])
    decreases |lines| - k
  {
    if k < |lines| {
      var init := lines[..|lines| - 1];
      assert init[..k] == lines[..k];
      RunErrSticks(s, init, k);
    } else {
      assert lines[..k] == lines;
    }
  }

  // ---------------------------------------------------------------------------
  // Invariants of the scan

  /** Every list of a title holds only items of its own class. */
  predicate ItemsSorted(t: TitleInfo)
  {
    (forall i :: 0 <= i < |t.chapters| ==> t.chapters[i].kind == ChapterData)
    && (forall i :: 0 <= i < |t.audioTracks| ==> t.audioTracks[i].kind == AudioTrackData)
    && (forall i :: 0 <= i < |t.subtitleTracks| ==> t.subtitleTracks[i].kind == SubtitleTrackData)
  }

  /** Title indices are their positions, and every item sits in its class's list. */
  predicate WellFormed(s: ScanState)
  {
    forall i :: 0 <= i < |s.titles| ==> s.titles[i].index == i && ItemsSorted(s.titles[i])
  }

  /** A line keeps the state well formed. */
  lemma StepWellFormed(s: ScanState, line: string)
    requires WellFormed(s)
    ensures Step(s, line).Ok? ==> WellFormed(Step(s, line).value)
  {
    if Classify(line).DataLine? && s.dataClass.Some? && s.titles != [] {
      var d := TitleData(s.dataClass.value, Classify(line).number, Classify(line).rest);
      var ts := s.titles;
      var last := ts[|ts| - 1].AddData(d);
      assert ItemsSorted(last) by {
        assert ItemsSorted(ts[|ts| - 1]);
      }
      var ts' := AddToLast(ts, d);
      assert forall i :: 0 <= i < |ts'| - 1 ==> ts'[i] == ts[i];
    }
  }

  /** Every scan from the initial state, however far it gets, is well formed: title
      indices are exactly 0 .. n-1 in append order. */
  lemma {:induction false} RunWellFormed(s: ScanState, lines: seq<string>)
    requires WellFormed(s)
    ensures Run(s, lines).Ok? ==> WellFormed(Run(s, lines).value)
    decreases |lines|
  {
    if lines != [] {
      RunWellFormed(s, lines[..|lines| - 1]);
      if Run(s, lines[..|lines| - 1]).Ok? {
        StepWellFormed(Run(s, lines[..|lines| - 1]).value, lines[|lines| - 1]);
      }
    }
  }

  /** The count of the first line that announces one, if any. */
  function FirstCount(lines: seq<string>): Option<nat>
  {
    if lines == [] then None
    else if DiscHasCount(lines[0]).Some? then DiscHasCount(lines[0])
    else FirstCount(lines[1..])
  }

  lemma {:induction false} FirstCountSnoc(lines: seq<string>, line: string)
    ensures FirstCount(lines + [line]) == CountAfter(FirstCount(lines), DiscHasCount(line))
  {
    if lines != [] {
      assert (lines + [line])[1..] == lines[1..] + [line];
      FirstCountSnoc(lines[1..], line);
    }
  }

  /** The expected title count is set once: it is the state's own count if it had one,
      else the count of the first line that announces one; later announcements and
      lines without one change nothing. */
  lemma {:induction false} RunTitleCount(s: ScanState, lines: seq<string>)
    ensures Run(s, lines).Ok? ==>
      Run(s, lines).value.titleCount == if s.titleCount.Some? then s.titleCount else FirstCount(lines)
    decreases |lines|
  {
    if lines != [] {
      var init, last := lines[..|lines| - 1], lines[|lines| - 1];
      RunTitleCount(s, init);
      assert lines == init + [last];
      FirstCountSnoc(init, last);
      if Run(s, init).Ok? {
        StepCounters(Run(s, init).value, last);
      }
    }
  }

  /** Only the two setters touch the counters. */
  lemma StepCounters(s: ScanState, line: string)
    ensures Step(s, line).Ok? ==>
      && Step(s, line).value.titleCount == CountAfter(s.titleCount, DiscHasCount(line))
      && Step(s, line).value.titlesScanned ==
           ScannedAfter(s.titlesScanned, Step(s, line).value.titleCount, ScanningTitle(line))
  {
  }

  /** `@titles_scanned` never decreases and never passes the expected count (0 while
      the count is unset, as `nil.to_i` is 0). */
  lemma StepScanned(s: ScanState, line: string)
    requires s.titlesScanned <= ToI(s.titleCount)
    ensures Step(s, line).Ok? ==>
      s.titlesScanned <= Step(s, line).value.titlesScanned <= ToI(Step(s, line).value.titleCount)
  {
  }

  lemma {:induction false} RunScanned(s: ScanState, lines: seq<string>)
    requires s.titlesScanned <= ToI(s.titleCount)
    ensures Run(s, lines).Ok? ==>
      s.titlesScanned <= Run(s, lines).value.titlesScanned <= ToI(Run(s, lines).value.titleCount)
    decreases |lines|
  {
    if lines != [] {
      RunScanned(s, lines[..|lines| - 1]);
      if Run(s, lines[..|lines| - 1]).Ok? {
        StepScanned(Run(s, lines[..|lines| - 1]).value, lines[|lines| - 1]);
      }
    }
  }

  /** A `+ title N:` line appends exactly one title, numbered N, whose index is the
      number of titles before it, and clears the data class. */
  lemma StepTitleLine(s: ScanState, line: string)
    requires Classify(line).TitleLine?
    ensures Step(s, line).Ok?
    ensures Step(s, line).value.titles == s.titles + [NewTitle(Classify(line).number, |s.titles|)]
    ensures Step(s, line).value.dataClass.None?
  {
  }

  /** A header line selects the list later data lines go to and touches no title. */
  lemma StepHeader(s: ScanState, line: string)
    requires Classify(line).Header?
    ensures Step(s, line).Ok?
    ensures Step(s, line).value.titles == s.titles
    ensures Step(s, line).value.dataClass == Some(Classify(line).cls)
  {
  }

  /** A data line fails exactly when no header has been seen since the last title line
      (`nil.new`, checked first) or no title exists (`nil.add_data`). Otherwise it
      appends one item, to the list picked by the last header, of the last title only. */
  lemma StepDataLine(s: ScanState, line: string)
    requires Classify(line).DataLine?
    ensures s.dataClass.None? ==> Step(s, line) == Err(NoDataClass)
    ensures s.dataClass.Some? && s.titles == [] ==> Step(s, line) == Err(NoTitle)
    ensures s.dataClass.Some? && s.titles != [] ==>
      var c, k := s.dataClass.value, Classify(line);
      var n := |s.titles|;
      var t, t' := s.titles[n - 1], Step(s, line).value.titles[n - 1];
      && Step(s, line).Ok?
      && |Step(s, line).value.titles| == n
      && Step(s, line).value.titles[..n - 1] == s.titles[..n - 1]
      && Step(s, line).value.dataClass == s.dataClass
      && t'.number == t.number && t'.index == t.index
      && t'.Items(c) == t.Items(c) + [TitleData(c, k.number, k.rest)]
      && (forall c' :: c' != c ==> t'.Items(c') == t.Items(c'))
  {
  }

  /** Lines of any other kind leave the titles and the data class alone. */
  lemma StepOther(s: ScanState, line: string)
    requires Classify(line) == ScanDone || Classify(line) == Other
    ensures Step(s, line).Ok?
    ensures Step(s, line).value.titles == s.titles && Step(s, line).value.dataClass == s.dataClass
  {
  }

  // ---------------------------------------------------------------------------
  // Durations

  /** A title's duration adds up over any split of its chapter list. */
  lemma {:induction false} ChaptersDurationConcat(a: seq<TitleData>, b: seq<TitleData>)
    ensures ChaptersDuration(a + b) == ChaptersDuration(a) + ChaptersDuration(b)
    decreases |b|
  {
    if b != [] {
      var b', x := b[..|b| - 1], b[|b| - 1];
      assert (a + b)[..|a + b| - 1] == a + b';
      assert (a + b)[|a + b| - 1] == x;
      ChaptersDurationConcat(a, b');
      calc {
        ChaptersDuration(a + b);
        ChaptersDuration(a + b') + ChapterDuration(x.data);
        ChaptersDuration(a) + ChaptersDuration(b') + ChapterDuration(x.data);
        ChaptersDuration(a) + ChaptersDuration(b);
      }
    } else {
      assert a + b == a;
    }
  }

  /** A disc's duration adds up over any split of its title list. */
  lemma {:induction false} DiscDurationConcat(a: seq<TitleInfo>, b: seq<TitleInfo>)
    ensures DiscDuration(a + b) == DiscDuration(a) + DiscDuration(b)
    decreases |b|
  {
    if b != [] {
      var b', x := b[..|b| - 1], b[|b| - 1];
      assert (a + b)[..|a + b| - 1] == a + b';
      assert (a + b)[|a + b| - 1] == x;
      DiscDurationConcat(a, b');
      calc {
        DiscDuration(a + b);
        DiscDuration(a + b') + x.Duration();
        DiscDuration(a) + DiscDuration(b') + x.Duration();
        DiscDuration(a) + DiscDuration(b);
      }
    } else {
      assert a + b == a;
    }
  }

  /** The disc's duration grows only through chapter lines, each by the duration its
      text gives; every other line, title lines included, leaves it unchanged. */
  lemma StepDuration(s: ScanState, line: string)
    requires Step(s, line).Ok?
    ensures DiscDuration(Step(s, line).value.titles) == DiscDuration(s.titles) +
      if Classify(line).DataLine? && s.dataClass == Some(ChapterData) then ChapterDuration(Classify(line).rest) else 0
  {
    var ts := s.titles;
    match Classify(line)
    case TitleLine(n) =>
      DiscDurationConcat(ts, [NewTitle(n, |ts|)]);
      assert DiscDuration([NewTitle(n, |ts|)]) == 0 by {
        assert [NewTitle(n, |ts|)][..0] == [];
      }
    case DataLine(n, rest) =>
      var d := TitleData(s.dataClass.value, n, rest);
      var t := ts[|ts| - 1];
      assert ts == ts[..|ts| - 1] + [t];
      DiscDurationConcat(ts[..|ts| - 1], [t]);
      DiscDurationConcat(ts[..|ts| - 1], [t.AddData(d)]);
      DiscDurationOne(t);
      DiscDurationOne(t.AddData(d));
      if d.kind == ChapterData {
        assert (t.chapters + [d])[..|t.chapters|] == t.chapters;
      }
    case _ =>
  }

  /** Every chapter item of the disc, title after title. */
  function AllChapters(ts: seq<TitleInfo>): seq<TitleData>
  {
    if ts == [] then [] else ts[0].chapters + AllChapters(ts[1..])
  }

  /** `Disc#duration` (the sum of the title durations) is the total of all the
      disc's chapters, however they are spread over its titles. */
  lemma {:induction false} DiscDurationChapters(ts: seq<TitleInfo>)
    ensures DiscDuration(ts) == ChaptersDuration(AllChapters(ts))
  {
    if ts != [] {
      var t, rest := ts[0], ts[1..];
      assert ts == [t] + rest;
      DiscDurationConcat([t], rest);
      DiscDurationOne(t);
      DiscDurationChapters(rest);
      ChaptersDurationConcat(t.chapters, AllChapters(rest));
    }
  }

  lemma DiscDurationOne(t: TitleInfo)
    ensures DiscDuration([t]) == t.Duration()
  {
    assert [t][..0] == [];
  }
}
