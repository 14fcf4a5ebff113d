/** The mutable objects of the scan: `Title`, whose `add_data` appends in place, and
    `Disc`, whose constructor streams the scan output through the line handler. Each
    is proved to follow the value-level machine of module DiscModel. */
module Discs {
  import opened Wrappers
  import opened ScanLines
  import opened DiscModel

  class Title {
    const number: nat
    const index: nat
    var chapters: seq<TitleData>
    var audioTracks: seq<TitleData>
    var subtitleTracks: seq<TitleData>

    /** `Title.new(number, index)`: three empty lists. */
    constructor (number: nat, index: nat)
      ensures Info() == NewTitle(number, index)
    {
      this.number := number;
      this.index := index;
      chapters := [];
      audioTracks := [];
      subtitleTracks := [];
    }

    /** The title's current value. */
    function Info(): TitleInfo
      reads this
    {
      TitleInfo(number, index, chapters, audioTracks, subtitleTracks)
    }

    /** `Title#add_data`: appends the item to the list of its class, in place. */
    method AddData(d: TitleData)
      modifies this
      ensures Info() == old(Info()).AddData(d)
    {
      match d.kind
      case ChapterData => chapters := chapters + [d];
      case SubtitleTrackData => subtitleTracks := subtitleTracks + [d];
      case AudioTrackData => audioTracks := audioTracks + [d];
    }
  }

  class Disc {
    const path: string
    var titles: seq<Title>
    var titleCount: Option<nat>
    var titlesScanned: nat

    /** The field initialisation of `Disc#initialize`, before the scan. */
    constructor (path: string)
      ensures this.path == path && titles == [] && titleCount == None && titlesScanned == 0
    {
      this.path := path;
      titles := [];
      titleCount := None;
      titlesScanned := 0;
    }

    /** No title object appears twice in the list. */
    ghost predicate Valid()
      reads this
    {
      forall i, j :: 0 <= i < j < |titles| ==> titles[i] != titles[j]
    }

    /** The objects hold the scan state s (all of it but the handler's local). */
    ghost predicate Models(s: ScanState)
      reads this, titles
    {
      && Valid()
      && |titles| == |s.titles|
      && (forall i :: 0 <= i < |titles| ==> titles[i].Info() == s.titles[i])
      && titleCount == s.titleCount
      && titlesScanned == s.titlesScanned
    }

    /** `title_count=`: ignores nil and every value after the first. */
    method SetTitleCount(value: Option<nat>)
      modifies this`titleCount
      ensures titleCount == CountAfter(old(titleCount), value)
    {
      if titleCount.Some? || value.None? {
        return;
      }
      titleCount := value;
    }

    /** `titles_scanned=`: counts up, one title at a time, to the smaller of the
        announced title and the expected count. */
    method SetTitlesScanned(value: Option<nat>)
      modifies this`titlesScanned
      ensures titlesScanned == ScannedAfter(old(titlesScanned), titleCount, value)
    {
      var target := Min(ToI(value), ToI(titleCount));
      while titlesScanned < target
        invariant old(titlesScanned) <= titlesScanned <= Max(old(titlesScanned), target)
        decreases target - titlesScanned
      {
        titlesScanned := titlesScanned + 1;
      }
    }

    /** The two counter setters every line of the scan calls first. */
    method UpdateCounters(line: string, ghost s: ScanState)
      requires Models(s)
      modifies this`titleCount, this`titlesScanned
      ensures Models(Counted(s, line))
    {
      SetTitleCount(DiscHasCount(line));
      SetTitlesScanned(ScanningTitle(line));
    }

    /** The `elsif` chain of the line handler. Returns the new `title_data_class`,
        or the error the line raises. */
    method Record(line: string, dataClass: Option<DataClass>, ghost s: ScanState)
      returns (r: Result<Option<DataClass>, ScanError>)
      requires Models(s) && s.dataClass == dataClass
      modifies this`titles, titles
      ensures Dispatch(s, line).Err? ==> r == Err(Dispatch(s, line).error)
      ensures Dispatch(s, line).Ok? ==> r == Ok(Dispatch(s, line).value.dataClass) && Models(Dispatch(s, line).value)
      ensures |old(titles)| <= |titles| && titles[..|old(titles)|] == old(titles)
      ensures forall i :: |old(titles)| <= i < |titles| ==> fresh(titles[i])
    {
      match Classify(line)
      case ScanDone =>
        r := Ok(dataClass);
      case TitleLine(n) =>
        OpenTitle(n, s);
        r := Ok(None);
      case Header(c) =>
        r := Ok(Some(c));
      case DataLine(n, rest) =>
        if dataClass.None? {
          return Err(NoDataClass);
        }
        if titles == [] {
          return Err(NoTitle);
        }
        AddToLastTitle(TitleData(dataClass.value, n, rest), s);
        r := Ok(dataClass);
      case Other =>
        r := Ok(dataClass);
    }

    /** `@titles << Title.new(number, @titles.length)`. */
    method OpenTitle(n: nat, ghost s: ScanState)
      requires Models(s)
      modifies this`titles
      ensures Models(s.(titles := s.titles + [NewTitle(n, |s.titles|)]))
      ensures |titles| == |old(titles)| + 1 && titles[..|old(titles)|] == old(titles)
      ensures fresh(titles[|titles| - 1])
    {
      var t := new Title(n, |titles|);
      titles := titles + [t];
    }

    /** `@titles.last.add_data(...)`: the last title object changes in place. */
    method AddToLastTitle(d: TitleData, ghost s: ScanState)
      requires Models(s) && titles != []
      modifies titles
      ensures Models(s.(titles := AddToLast(s.titles, d)))
      ensures titles == old(titles)
    {
      var last := titles[|titles| - 1];
      last.AddData(d);
      assert forall i :: 0 <= i < |titles| - 1 ==> titles[i] != last;
    }

    /** The block the scan runs on each line: both counter setters, then the `elsif`
        chain. */
    method HandleLine(line: string, dataClass: Option<DataClass>, ghost s: ScanState)
      returns (r: Result<Option<DataClass>, ScanError>)
      requires Models(s) && s.dataClass == dataClass
      modifies this, titles
      ensures Step(s, line).Err? ==> r == Err(Step(s, line).error)
      ensures Step(s, line).Ok? ==> r == Ok(Step(s, line).value.dataClass) && Models(Step(s, line).value)
      ensures |old(titles)| <= |titles| && titles[..|old(titles)|] == old(titles)
      ensures forall i :: |old(titles)| <= i < |titles| ==> fresh(titles[i])
    {
      UpdateCounters(line, s);
      r := Record(line, dataClass, Counted(s, line));
    }

    /** The line loop of `Disc#initialize`, from the freshly initialised fields:
        either every line is handled and the objects hold the scan's result, or the
        first raising line's error is reported. */
    method Scan(lines: seq<string>) returns (err: Option<ScanError>)
      requires titles == [] && titleCount == None && titlesScanned == 0
      modifies this
      ensures err.None? <==> Run(Initial, lines).Ok?
      ensures err.Some? ==> err.value == Run(Initial, lines).error
      ensures err.None? ==> Models(Run(Initial, lines).value)
    {
      var dataClass: Option<DataClass> := None;
      ghost var s := Initial;
      var i := 0;
      while i < |lines|
        invariant 0 <= i <= |lines|
        invariant Run(Initial, lines[..i]) == Ok(s)
        invariant Models(s) && s.dataClass == dataClass
        invariant forall k :: 0 <= k < |titles| ==> fresh(titles[k])
      {
        RunNext(Initial, lines, i);
        var r := HandleLine(lines[i], dataClass, s);
        if r.Err? {
          RunErrSticks(Initial, lines, i + 1);
          return Some(r.error);
        }
        dataClass := r.value;
        s := Step(s, lines[i]).value;
        i := i + 1;
      }
      assert lines[..i] == lines;
      err := None;
    }
  }

  /** `Disc.new(volume)` with the scan output given as its lines. */
  method ReadDisc(path: string, lines: seq<string>) returns (disc: Disc, err: Option<ScanError>)
    ensures fresh(disc) && disc.path == path
    ensures err.None? <==> Run(Initial, lines).Ok?
    ensures err.Some? ==> err.value == Run(Initial, lines).error
    ensures err.None? ==> disc.Models(Run(Initial, lines).value)
  {
    disc := new Disc(path);
    err := disc.Scan(lines);
  }
}
