/** Episode descriptors: the per-token parse of `Episode#initialize`, the bounds check of
    `Episode#valid?`, the whole-line pattern the prompt checks typed input against, and
    the "every token valid" condition of the episode prompt. */
module Episodes {
  import opened Wrappers
  import opened Text
  import opened DiscModel

  /** `@chapters`: nil, one chapter number, or the range `first..last`. */
  datatype Chapters = AllChapters | Single(n: nat) | Range(first: nat, last: nat)

  /** An `Episode` without its disc back-reference: a title number and its chapters. */
  datatype Episode = Episode(title: nat, chapters: Chapters)

  // ---------------------------------------------------------------------------
  // The token shape `D(.D(-D)?)?`
  // ---------------------------------------------------------------------------

  /** A non-empty run of decimal digits: what `\d+` matches. */
  predicate Digits(s: string) { |s| >= 1 && AllDigits(s) }

  /** The three capture groups of `^(\d+)(?:\.(\d+)(?:-(\d+))?)?$`. */
  datatype Groups = Groups(title: string, first: Option<string>, last: Option<string>)

  predicate WellShaped(g: Groups)
  {
    && Digits(g.title)
    && (g.first.Some? ==> Digits(g.first.value))
    && (g.last.Some? ==> g.first.Some? && Digits(g.last.value))
  }

  /** The text of the optional part `(?:\.(\d+)(?:-(\d+))?)?`. */
  function RestText(first: Option<string>, last: Option<string>): string
  {
    if first.None? then "" else "." + first.value + if last.None? then "" else "-" + last.value
  }

  /** The text the groups were matched from. */
  function GroupsText(g: Groups): string
  {
    g.title + RestText(g.first, g.last)
  }

  /** `(?:-(\d+))?$` against the rest of a word. */
  function LastGroup(r: string): (x: Option<Option<string>>)
    ensures x.Some? && x.value.None? ==> r == ""
    ensures x.Some? && x.value.Some? ==> Digits(x.value.value) && r == "-" + x.value.value
  {
    if r == [] then Some(None)
    else if r[0] == '-' && Digits(r[1..]) then
      assert r == "-" + r[1..];
      Some(Some(r[1..]))
    else None
  }

  /** `(?:\.(\d+)(?:-(\d+))?)?$` against what follows the title digits. */
  function Rest(r: string): (x: Option<(Option<string>, Option<string>)>)
    ensures x.Some? ==> var (f, l) := x.value;
      && (f.Some? ==> Digits(f.value))
      && (l.Some? ==> f.Some? && Digits(l.value))
      && RestText(f, l) == r
  {
    if r == [] then Some((None, None))
    else if r[0] != '.' then None
    else
      var b := DigitRun(r, 1);
      if b == 0 then None
      else
        var f, tail := r[1..1 + b], r[1 + b..];
        match LastGroup(tail)
        case None => None
        case Some(l) =>
          assert (if l.None? then "" else "-" + l.value) == tail;
          assert RestText(Some(f), l) == "." + f + tail;
          assert r == "." + f + tail;
          Some((Some(f), l))
  }

  /** The match of the token regex of `Episode#initialize` against a whole word. Every
      `\d+` group is followed by a non-digit or the end, so the greedy digit runs are
      what the backtracking matcher settles on. */
  function Shape(w: string): (r: Option<Groups>)
    ensures r.Some? ==> WellShaped(r.value) && GroupsText(r.value) == w
  {
    var a := DigitRun(w, 0);
    if a == 0 then None
    else
      match Rest(w[a..])
      case None => None
      case Some((f, l)) =>
        assert w == w[..a] + w[a..];
        Some(Groups(w[..a], f, l))
  }

  lemma LastGroupText(l: Option<string>)
    requires l.Some? ==> Digits(l.value)
    ensures LastGroup(if l.None? then "" else "-" + l.value) == Some(l)
  {
    if l.Some? {
      assert ("-" + l.value)[1..] == l.value;
    }
  }

  lemma RestTextMatched(f: Option<string>, l: Option<string>)
    requires f.Some? ==> Digits(f.value)
    requires l.Some? ==> f.Some? && Digits(l.value)
    ensures Rest(RestText(f, l)) == Some((f, l))
  {
    if f.Some? {
      var tail := if l.None? then "" else "-" + l.value;
      var r := "." + f.value + tail;
      var b := |f.value|;
      assert r == RestText(f, l);
      DigitRunUnique(r, 1, b);
      assert r[1..1 + b] == f.value;
      assert r[1 + b..] == tail;
      LastGroupText(l);
    }
  }

  /** Every well-shaped group triple is matched back from its text. */
  lemma ShapeText(g: Groups)
    requires WellShaped(g)
    ensures Shape(GroupsText(g)) == Some(g)
  {
    var w := GroupsText(g);
    var t := |g.title|;
    var r := RestText(g.first, g.last);
    assert r == [] || r[0] == '.';
    DigitRunUnique(w, 0, t);
    assert w[..t] == g.title;
    assert w[t..] == r;
    RestTextMatched(g.first, g.last);
  }

  // ---------------------------------------------------------------------------
  // Episode#initialize
  // ---------------------------------------------------------------------------

  function ToEpisode(g: Groups): Episode
    requires WellShaped(g)
  {
    Episode(
      DigitsValue(g.title),
      if g.first.None? then AllChapters
      else if g.last.None? then Single(DigitsValue(g.first.value))
      else Range(DigitsValue(g.first.value), DigitsValue(g.last.value)))
  }

  /** `Episode.new(disc, description)`; None where the match is nil and `match[ 1 ]`
      raises. Each group goes through `to_i`, so `0` and leading zeros are accepted. */
  function ParseEpisode(w: string): Option<Episode>
  {
    match Shape(w)
    case None => None
    case Some(g) => Some(ToEpisode(g))
  }

  /** The groups of the canonical (`Integer#to_s`) text of an episode. */
  function EpisodeGroups(e: Episode): Groups
  {
    match e.chapters
    case AllChapters => Groups(NatStr(e.title), None, None)
    case Single(n) => Groups(NatStr(e.title), Some(NatStr(n)), None)
    case Range(a, b) => Groups(NatStr(e.title), Some(NatStr(a)), Some(NatStr(b)))
  }

  /** `"t"`, `"t.c"` or `"t.a-b"`, as the suggestion writes them with `'%s.%s'`. */
  function EpisodeText(e: Episode): string
  {
    GroupsText(EpisodeGroups(e))
  }

  /** Parsing the canonical text of an episode gives the episode back. */
  lemma ParseEpisodeText(e: Episode)
    ensures ParseEpisode(EpisodeText(e)) == Some(e)
  {
    var g := EpisodeGroups(e);
    assert WellShaped(g);
    ShapeText(g);
    assert ParseEpisode(EpisodeText(e)) == Some(ToEpisode(g));
    assert DigitsValue(g.title) == e.title;
    match e.chapters
    case AllChapters =>
    case Single(n) =>
      assert DigitsValue(g.first.value) == n;
    case Range(a, b) =>
      assert DigitsValue(g.first.value) == a && DigitsValue(g.last.value) == b;
  }

  /** `Episode.new` raises exactly on words that are not of the shape `D(.D(-D)?)?`. */
  lemma ParseEpisodeNone(w: string)
    ensures ParseEpisode(w).None? <==> forall g :: WellShaped(g) ==> GroupsText(g) != w
  {
    if ParseEpisode(w).None? {
      forall g | WellShaped(g) ensures GroupsText(g) != w {
        ShapeText(g);
      }
    }
  }

  /** The word `0` parses, to title 0. */
  lemma ParseZero()
    ensures ParseEpisode("0") == Some(Episode(0, AllChapters))
  {
    var g := Groups("0", None, None);
    ShapeText(g);
    assert GroupsText(g) == "0";
    assert DigitsValue("0") == 0;
  }

  /** Leading zeros are read as decimal: `1.07` is chapter 7 of title 1. */
  lemma ParseLeadingZero()
    ensures ParseEpisode("1.07") == Some(Episode(1, Single(7)))
  {
    var g := Groups("1", Some("07"), None);
    ShapeText(g);
    assert GroupsText(g) == "1.07";
    assert "07"[..1] == "0";
    assert DigitsValue("07") == 7;
    assert DigitsValue("1") == 1;
  }

  // ---------------------------------------------------------------------------
  // Episode#valid?
  // ---------------------------------------------------------------------------

  /** `(1..hi) === n`. */
  predicate InRange(n: nat, hi: nat) { 1 <= n <= hi }

  /** `Episode#valid?` against the disc's titles: the title number must name a title,
      and a chapter or both ends of a range must name chapters of that title. */
  predicate EpisodeValid(e: Episode, titles: seq<TitleInfo>)
  {
    if e.title < 1 || e.title > |titles| then false
    else
      var count := |titles[e.title - 1].chapters|;
      match e.chapters
      case AllChapters => true
      case Single(n) => InRange(n, count)
      case Range(a, b) => InRange(a, count) && InRange(b, count)
  }

  /** The chapter numbers an episode's chapters denote (`a..b` is empty when a > b). */
  predicate Covers(c: Chapters, n: nat)
  {
    match c
    case AllChapters => false
    case Single(m) => n == m
    case Range(a, b) => a <= n <= b
  }

  /** A valid episode names a title of the disc, its chapter or both ends of its range
      are chapters of that title, and so is every chapter its range covers: checking
      the two ends is enough. */
  lemma ValidCovers(e: Episode, titles: seq<TitleInfo>)
    requires EpisodeValid(e, titles)
    ensures 1 <= e.title <= |titles|
    ensures e.chapters.Single? ==> InRange(e.chapters.n, |titles[e.title - 1].chapters|)
    ensures e.chapters.Range? ==>
      InRange(e.chapters.first, |titles[e.title - 1].chapters|) &&
      InRange(e.chapters.last, |titles[e.title - 1].chapters|)
    ensures forall n :: Covers(e.chapters, n) ==> InRange(n, |titles[e.title - 1].chapters|)
  {
  }

  /** Conversely, an episode whose title is on the disc and whose ends are chapters of it
      is valid. */
  lemma ValidWhen(e: Episode, titles: seq<TitleInfo>)
    requires 1 <= e.title <= |titles|
    requires e.chapters.Single? ==> InRange(e.chapters.n, |titles[e.title - 1].chapters|)
    requires e.chapters.Range? ==>
      InRange(e.chapters.first, |titles[e.title - 1].chapters|) &&
      InRange(e.chapters.last, |titles[e.title - 1].chapters|)
    ensures EpisodeValid(e, titles)
  {
  }

  /** The order of a range's ends is not checked: `a..b` and `b..a` are valid together. */
  lemma RangeUnordered(t: nat, a: nat, b: nat, titles: seq<TitleInfo>)
    ensures EpisodeValid(Episode(t, Range(a, b)), titles) <==> EpisodeValid(Episode(t, Range(b, a)), titles)
  {
  }

  /** Title 0, which the token parse lets through as `0`, is never valid. */
  lemma TitleZeroInvalid(c: Chapters, titles: seq<TitleInfo>)
    ensures !EpisodeValid(Episode(0, c), titles)
  {
  }

  // ---------------------------------------------------------------------------
  // The prompt pattern of showbrake.rb:166
  // ---------------------------------------------------------------------------

  /** `[1-9]\d*`. */
  predicate IsNum(s: string) { Digits(s) && s[0] != '0' }

  /** One token of the pattern: the episode shape with every number written `[1-9]\d*`. */
  predicate IsToken(w: string)
  {
    match Shape(w)
    case None => false
    case Some(g) =>
      IsNum(g.title) && (g.first.Some? ==> IsNum(g.first.value)) && (g.last.Some? ==> IsNum(g.last.value))
  }

  /** Every number of the episode is at least 1. */
  predicate Positive(e: Episode)
  {
    && e.title >= 1
    && (e.chapters.Single? ==> e.chapters.n >= 1)
    && (e.chapters.Range? ==> e.chapters.first >= 1 && e.chapters.last >= 1)
  }

  /** A number without a leading zero is the text `Integer#to_s` writes for its value. */
  lemma {:induction false} NatStrOfNum(s: string)
    requires IsNum(s)
    ensures DigitsValue(s) >= 1 && NatStr(DigitsValue(s)) == s
    decreases |s|
  {
    var init := s[..|s| - 1];
    if |init| == 0 {
      assert s == [s[0]];
    } else {
      assert init[0] == s[0];
      NatStrOfNum(init);
      var v := DigitsValue(s);
      assert v == DigitsValue(init) * 10 + DigitValue(s[|s| - 1]);
      assert v / 10 == DigitsValue(init) && v % 10 == DigitValue(s[|s| - 1]);
      assert s == init + [s[|s| - 1]];
    }
  }

  /** The canonical text of an episode is a token exactly when all its numbers are at
      least 1. */
  lemma TokenText(e: Episode)
    ensures IsToken(EpisodeText(e)) <==> Positive(e)
  {
    var g := EpisodeGroups(e);
    ShapeText(g);
    assert Shape(EpisodeText(e)) == Some(g);
    assert IsToken(EpisodeText(e)) <==>
      IsNum(g.title) && (g.first.Some? ==> IsNum(g.first.value)) && (g.last.Some? ==> IsNum(g.last.value));
    NumOfNatStr(e.title);
    match e.chapters
    case AllChapters =>
    case Single(n) => NumOfNatStr(n);
    case Range(a, b) => NumOfNatStr(a); NumOfNatStr(b);
  }

  /** `Integer#to_s` writes a `[1-9]\d*` number exactly for values at least 1. */
  lemma NumOfNatStr(n: nat)
    ensures IsNum(NatStr(n)) <==> n >= 1
  {
    if n == 0 {
      assert NatStr(0) == "0";
    }
  }

  /** A token parses, to a positive episode whose canonical text is the token itself. */
  lemma TokenParses(w: string)
    requires IsToken(w)
    ensures ParseEpisode(w).Some? && Positive(ParseEpisode(w).value)
    ensures EpisodeText(ParseEpisode(w).value) == w
  {
    var g := Shape(w).value;
    NatStrOfNum(g.title);
    if g.first.Some? {
      NatStrOfNum(g.first.value);
    }
    if g.last.Some? {
      NatStrOfNum(g.last.value);
    }
  }

  /** Position of the first `' '` in s, or |s|. */
  function SpaceIndex(s: string): (n: nat)
    ensures n <= |s|
    ensures forall k :: 0 <= k < n ==> s[k] != ' '
    ensures n < |s| ==> s[n] == ' '
  {
    if s == [] || s[0] == ' ' then 0 else 1 + SpaceIndex(s[1..])
  }

  /** `^T(?: T)*$` with T a token: tokens separated by single spaces. Tokens hold no
      space, so each one ends at the first space after it. */
  predicate Grammar(s: string)
    decreases |s|
  {
    var n := SpaceIndex(s);
    IsToken(s[..n]) && (n == |s| || Grammar(s[n + 1..]))
  }

  lemma AllDigitsNoSpace(s: string)
    requires AllDigits(s)
    ensures NoSpace(s)
  {
  }

  lemma NoSpaceConcat(a: string, b: string)
    requires NoSpace(a) && NoSpace(b)
    ensures NoSpace(a + b)
  {
    forall k | 0 <= k < |a + b| ensures !IsSpace((a + b)[k]) {
      if k >= |a| {
        assert (a + b)[k] == b[k - |a|];
      }
    }
  }

  /** The text of well-shaped groups is a word of `split(' ')`. */
  lemma ShapedIsWord(g: Groups)
    requires WellShaped(g)
    ensures IsWord(GroupsText(g))
  {
    AllDigitsNoSpace(g.title);
    if g.first.Some? {
      AllDigitsNoSpace(g.first.value);
      var tail := if g.last.None? then "" else "-" + g.last.value;
      if g.last.Some? {
        AllDigitsNoSpace(g.last.value);
        NoSpaceConcat("-", g.last.value);
      }
      NoSpaceConcat(".", g.first.value);
      NoSpaceConcat("." + g.first.value, tail);
      NoSpaceConcat(g.title, "." + g.first.value + tail);
    } else {
      assert GroupsText(g) == g.title;
    }
  }

  /** A token is a word of `split(' ')`. */
  lemma TokenIsWord(w: string)
    requires IsToken(w)
    ensures IsWord(w)
  {
    ShapedIsWord(Shape(w).value);
  }

  /** So is the canonical text of every episode. */
  lemma EpisodeTextIsWord(e: Episode)
    ensures IsWord(EpisodeText(e))
  {
    ShapedIsWord(EpisodeGroups(e));
  }

  /** The first space of `t + " " + rest` for a token t is the one after it. */
  lemma SpaceIndexAfter(t: string, rest: string)
    requires NoSpace(t)
    ensures SpaceIndex(t + " " + rest) == |t|
  {
    var s := t + " " + rest;
    assert forall k :: 0 <= k < |t| ==> s[k] == t[k];
    assert s[|t|] == ' ';
  }

  /** Tokens joined by single spaces match the pattern. */
  lemma {:induction false} GrammarJoin(ws: seq<string>)
    requires ws != []
    requires forall i :: 0 <= i < |ws| ==> IsToken(ws[i])
    ensures Grammar(Join(ws))
  {
    if |ws| == 1 {
      GrammarOne(ws[0]);
    } else {
      assert Join(ws) == ws[0] + " " + Join(ws[1..]);
      GrammarJoin(ws[1..]);
      GrammarCons(ws[0], Join(ws[1..]));
    }
  }

  /** A lone token matches. */
  lemma GrammarOne(s: string)
    requires IsToken(s)
    ensures Grammar(s)
  {
    TokenIsWord(s);
    assert SpaceIndex(s) == |s| by {
      if SpaceIndex(s) < |s| {
        assert IsSpace(s[SpaceIndex(s)]);
      }
    }
    assert s[..|s|] == s;
  }

  /** A token, a space and a match make a match. */
  lemma GrammarCons(t: string, rest: string)
    requires IsToken(t) && Grammar(rest)
    ensures Grammar(t + " " + rest)
  {
    var s := t + " " + rest;
    TokenIsWord(t);
    SpaceIndexAfter(t, rest);
    assert s[..|t|] == t;
    assert s[|t| + 1..] == rest;
  }

  /** Splitting a word, a space and a rest. */
  lemma WordsAfterWord(t: string, rest: string)
    requires IsWord(t)
    ensures Words(t + " " + rest) == [t] + Words(rest)
  {
    assert t + " " + rest == t + (" " + rest);
    WordsOfWord(t, " " + rest);
    SpaceThenWords(rest);
  }

  lemma JoinCons(t: string, ws: seq<string>)
    requires ws != []
    ensures Join([t] + ws) == t + " " + Join(ws)
  {
    assert ([t] + ws)[1..] == ws;
  }

  /** A string that matches the pattern is its own words joined by spaces, and every
      word is a token. */
  lemma {:induction false} GrammarSplit(s: string)
    requires Grammar(s)
    ensures Words(s) != [] && Join(Words(s)) == s
    ensures forall i :: 0 <= i < |Words(s)| ==> IsToken(Words(s)[i])
    decreases |s|
  {
    var n := SpaceIndex(s);
    if n == |s| {
      GrammarLast(s);
    } else {
      var t, rest := GrammarHead(s);
      GrammarSplit(rest);
      SplitCons(t, rest);
    }
  }

  /** Without a space, the whole string is the one token. */
  lemma GrammarLast(s: string)
    requires Grammar(s) && SpaceIndex(s) == |s|
    ensures Words(s) != [] && Join(Words(s)) == s
    ensures forall i :: 0 <= i < |Words(s)| ==> IsToken(Words(s)[i])
  {
    assert s[..|s|] == s;
    TokenIsWord(s);
    LoneWord(s);
  }

  /** Otherwise the first token, its space and the rest, which matches again. */
  lemma GrammarHead(s: string) returns (t: string, rest: string)
    requires Grammar(s) && SpaceIndex(s) < |s|
    ensures s == t + " " + rest && |rest| < |s|
    ensures IsToken(t) && Grammar(rest)
  {
    var n := SpaceIndex(s);
    t, rest := s[..n], s[n + 1..];
    assert s == t + " " + rest;
  }

  /** One token in front of a string that splits into tokens. */
  lemma SplitCons(t: string, rest: string)
    requires IsToken(t)
    requires Words(rest) != [] && Join(Words(rest)) == rest
    requires forall i :: 0 <= i < |Words(rest)| ==> IsToken(Words(rest)[i])
    ensures Words(t + " " + rest) != [] && Join(Words(t + " " + rest)) == t + " " + rest
    ensures forall i :: 0 <= i < |Words(t + " " + rest)| ==> IsToken(Words(t + " " + rest)[i])
  {
    var ws := Words(rest);
    TokenIsWord(t);
    WordsAfterWord(t, rest);
    JoinCons(t, ws);
    var all := [t] + ws;
    forall i | 0 <= i < |all|
      ensures IsToken(all[i])
    {
      if i > 0 {
        assert all[i] == ws[i - 1];
      }
    }
  }

  lemma LoneWord(w: string)
    requires IsWord(w)
    ensures Words(w) == [w] && Join([w]) == w
  {
    WordsOfWord(w, "");
    assert w + "" == w;
  }

  // ---------------------------------------------------------------------------
  // The prompt's acceptance condition (showbrake.rb:165-168)
  // ---------------------------------------------------------------------------

  /** `.map{ |description| Episode.new( disc, description ) }` over the words; None
      where some word makes `Episode.new` raise. */
  function ParseAll(ws: seq<string>): (r: Option<seq<Episode>>)
    ensures r.Some? <==> forall i :: 0 <= i < |ws| ==> ParseEpisode(ws[i]).Some?
    ensures r.Some? ==> |r.value| == |ws| && forall i :: 0 <= i < |ws| ==> ParseEpisode(ws[i]) == Some(r.value[i])
  {
    if ws == [] then Some([])
    else
      match (ParseEpisode(ws[0]), ParseAll(ws[1..]))
      case (Some(e), Some(es)) => Some([e] + es)
      case _ => None
  }

  /** `description.split( ' ' ).map{ ... }`. */
  function ParseDescriptor(s: string): Option<seq<Episode>>
  {
    ParseAll(Words(s))
  }

  predicate AllValid(es: seq<Episode>, titles: seq<TitleInfo>)
  {
    forall i :: 0 <= i < |es| ==> EpisodeValid(es[i], titles)
  }

  /** What one answer to the episode prompt leads to. */
  datatype Verdict = Accepted(episodes: seq<Episode>) | Asked | Raises

  /** One pass of the `begin ... end while` loop on the answer `readline` returned:
      the episodes when none is invalid, another prompt otherwise, an exception when a
      word is not an episode. */
  function Attempt(answer: string, titles: seq<TitleInfo>): Verdict
  {
    match ParseDescriptor(answer)
    case None => Raises
    case Some(es) => if AllValid(es, titles) then Accepted(es) else Asked
  }

  /** A typed answer that matches the pattern never raises; it is accepted exactly when
      every one of its (at least one) episodes is valid. */
  lemma GrammarAttempt(answer: string, titles: seq<TitleInfo>)
    requires Grammar(answer)
    ensures ParseDescriptor(answer).Some?
    ensures var es := ParseDescriptor(answer).value;
      && |es| >= 1
      && (forall i :: 0 <= i < |es| ==> Positive(es[i]) && EpisodeText(es[i]) == Words(answer)[i])
      && (Attempt(answer, titles) == Accepted(es) <==> AllValid(es, titles))
      && (Attempt(answer, titles) == Asked <==> !AllValid(es, titles))
  {
    GrammarSplit(answer);
    var ws := Words(answer);
    forall i | 0 <= i < |ws| ensures ParseEpisode(ws[i]).Some? {
      TokenParses(ws[i]);
    }
    var es := ParseDescriptor(answer).value;
    forall i | 0 <= i < |es| ensures Positive(es[i]) && EpisodeText(es[i]) == ws[i] {
      TokenParses(ws[i]);
    }
  }

  /** A single canonical episode text as the answer: accepted as that episode when it
      is valid, asked again otherwise. */
  lemma SingleAttempt(e: Episode, titles: seq<TitleInfo>)
    ensures Attempt(EpisodeText(e), titles) == if EpisodeValid(e, titles) then Accepted([e]) else Asked
  {
    var w := EpisodeText(e);
    ParseEpisodeText(e);
    EpisodeTextIsWord(e);
    WordsOfWord(w, "");
    assert w + "" == w;
    var r := ParseAll([w]);
    assert r.Some? && |r.value| == 1 && r.value[0] == e;
    assert r.value == [e];
  }

  /** `1.5-2` is accepted against a disc whose first title has six chapters. */
  lemma ReversedRangeAccepted(titles: seq<TitleInfo>)
    requires |titles| >= 1 && |titles[0].chapters| == 6
    ensures Attempt("1.5-2", titles) == Accepted([Episode(1, Range(5, 2))])
  {
    var e := Episode(1, Range(5, 2));
    ReversedRangeText();
    SingleAttempt(e, titles);
    assert EpisodeValid(e, titles);
  }

  lemma ReversedRangeText()
    ensures EpisodeText(Episode(1, Range(5, 2))) == "1.5-2"
  {
    assert NatStr(1) == "1" && NatStr(5) == "5" && NatStr(2) == "2";
  }
}
