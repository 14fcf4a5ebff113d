/** The episode suggestion of `Application.main`: the titles long enough to be episodes,
    those close to the typical (second-longest) length, and the descriptor offered as
    the prompt's default. */
module Suggestion {
  import opened Wrappers
  import opened Text
  import opened Seqs
  import opened ScanLines
  import opened DiscModel
  import opened Episodes

  /** `MINIMUM_EPISODE_LENGTH`, in seconds. */
  const MinimumEpisodeLength: nat := 600

  function DurationKey(t: TitleInfo): int { t.Duration() }

  function IndexKey(t: TitleInfo): int { t.index }

  /** Survives `reject{ |title| title.duration < MINIMUM_EPISODE_LENGTH }`. */
  predicate LongTitle(t: TitleInfo) { t.Duration() >= MinimumEpisodeLength }

  /** Survives `reject{ |chapter| chapter.duration < MINIMUM_EPISODE_LENGTH }`. */
  predicate LongChapter(c: TitleData) { ChapterDuration(c.data) >= MinimumEpisodeLength }

  /** `( normal - d ).abs > normal * EPISODE_DURATION_DEVIATION` with the deviation 0.25,
      multiplied out: both sides are integers times a power of two, so the float
      comparison is exact. */
  predicate Deviates(normal: int, d: int)
  {
    4 * (if normal >= d then normal - d else d - normal) > normal
  }

  /** The filter of `usable_titles.reject!` for a baseline. */
  function Within(normal: int): TitleInfo -> bool
  {
    (t: TitleInfo) => !Deviates(normal, t.Duration())
  }

  /** `usable_titles` after line 138: the long titles by ascending duration. */
  function Usable(ts: seq<TitleInfo>): seq<TitleInfo>
  {
    SortBy(Filter(ts, LongTitle), DurationKey)
  }

  /** Lines 140-143 on a duration-sorted list: with two or more, the second-longest is
      the baseline and the titles that deviate from it by more than a quarter go. */
  function Survivors(u: seq<TitleInfo>): seq<TitleInfo>
  {
    if |u| > 1 then Filter(u, Within(u[|u| - 2].Duration())) else u
  }

  function Candidates(ts: seq<TitleInfo>): seq<TitleInfo>
  {
    Survivors(Usable(ts))
  }

  /** Lines 146-156: a lone candidate is split at its long chapters when it has more
      than one chapter and more than one of them is long, and taken whole otherwise. */
  function TitlePlan(t: TitleInfo): seq<Episode>
  {
    var whole := [Episode(t.index + 1, AllChapters)];
    if |t.chapters| > 1 then
      var long := Filter(t.chapters, LongChapter);
      if |long| > 1 then seq(|long|, i requires 0 <= i < |long| => Episode(t.index + 1, Single(long[i].number)))
      else whole
    else whole
  }

  /** Lines 145-160 on the candidates: the single-candidate branch, or every candidate
      whole, by ascending index. */
  function PlanFor(c: seq<TitleInfo>): seq<Episode>
  {
    if |c| == 1 then TitlePlan(c[0]) else Whole(SortBy(c, IndexKey))
  }

  /** Each title whole, in the given order. */
  function Whole(v: seq<TitleInfo>): seq<Episode>
  {
    seq(|v|, i requires 0 <= i < |v| => Episode(v[i].index + 1, AllChapters))
  }

  /** The episodes the suggestion describes. */
  function Plan(ts: seq<TitleInfo>): seq<Episode>
  {
    PlanFor(Candidates(ts))
  }

  function Texts(es: seq<Episode>): seq<string>
  {
    seq(|es|, i requires 0 <= i < |es| => EpisodeText(es[i]))
  }

  /** `.map{ ... }.join( ' ' )`, with `'%s.%s'` and `to_s` as the episode texts. */
  function Render(es: seq<Episode>): string
  {
    Join(Texts(es))
  }

  /** `episode_map`, the default answer of the episode prompt. */
  function Suggest(ts: seq<TitleInfo>): string
  {
    Render(Plan(ts))
  }

  // ---------------------------------------------------------------------------
  // The filters
  // ---------------------------------------------------------------------------

  lemma UsableMembers(ts: seq<TitleInfo>, t: TitleInfo)
    ensures t in Usable(ts) <==> t in ts && LongTitle(t)
  {
    assert t in Usable(ts) <==> t in multiset(Usable(ts));
  }

  /** Every candidate is a title of the disc that lasts at least 600 s. */
  lemma CandidatesLong(ts: seq<TitleInfo>, t: TitleInfo)
    requires t in Candidates(ts)
    ensures t in ts && LongTitle(t)
  {
    UsableMembers(ts, t);
  }

  /** With more than one long title, the baseline (the second-longest) survives. */
  lemma BaselineSurvives(ts: seq<TitleInfo>)
    requires |Usable(ts)| > 1
    ensures Usable(ts)[|Usable(ts)| - 2] in Candidates(ts)
  {
  }

  /** With more than one long title, a title is a candidate exactly when it is long and
      within a quarter of the baseline; with at most one, exactly when it is long. */
  lemma CandidateIff(ts: seq<TitleInfo>, t: TitleInfo)
    ensures var u := Usable(ts);
      |u| > 1 ==>
        (t in Candidates(ts) <==>
          t in ts && LongTitle(t) && !Deviates(u[|u| - 2].Duration(), t.Duration()))
    ensures |Usable(ts)| <= 1 ==> (t in Candidates(ts) <==> t in ts && LongTitle(t))
  {
    UsableMembers(ts, t);
  }

  /** There are candidates exactly when some title is long. */
  lemma CandidatesExist(ts: seq<TitleInfo>)
    ensures Candidates(ts) != [] <==> exists t :: t in ts && LongTitle(t)
  {
    var u := Usable(ts);
    if exists t :: t in ts && LongTitle(t) {
      var t :| t in ts && LongTitle(t);
      UsableMembers(ts, t);
      if |u| > 1 {
        BaselineSurvives(ts);
      }
    } else if Candidates(ts) != [] {
      CandidatesLong(ts, Candidates(ts)[0]);
    }
  }

  // ---------------------------------------------------------------------------
  // The sort order of ties does not matter
  // ---------------------------------------------------------------------------

  /** Lists that are permutations of each other give the same plan. */
  lemma PlanForPermutation(c: seq<TitleInfo>, d: seq<TitleInfo>)
    requires multiset(c) == multiset(d)
    ensures PlanFor(c) == PlanFor(d)
  {
    SameLength(c, d);
    if |c| == 1 {
      SingletonPermutation(c, d);
    } else {
      ByIndexPermutation(c, d);
      WholeSameIndices(SortBy(c, IndexKey), SortBy(d, IndexKey));
    }
  }

  lemma SameLength<T>(c: seq<T>, d: seq<T>)
    requires multiset(c) == multiset(d)
    ensures |c| == |d|
  {
    assert |c| == |multiset(c)|;
    assert |d| == |multiset(d)|;
  }

  lemma SingletonPermutation<T>(c: seq<T>, d: seq<T>)
    requires |c| == 1 && multiset(c) == multiset(d)
    ensures c == d
  {
    SameLength(c, d);
    assert c[0] in multiset(d);
    assert d[0] == c[0];
  }

  lemma WholeSameIndices(x: seq<TitleInfo>, y: seq<TitleInfo>)
    requires |x| == |y| && forall i :: 0 <= i < |x| ==> x[i].index == y[i].index
    ensures Whole(x) == Whole(y)
  {
  }

  /** The index order of a permutation has the same indices. */
  lemma ByIndexPermutation(c: seq<TitleInfo>, d: seq<TitleInfo>)
    requires multiset(c) == multiset(d)
    ensures var x, y := SortBy(c, IndexKey), SortBy(d, IndexKey);
      |x| == |y| && forall i :: 0 <= i < |x| ==> x[i].index == y[i].index
  {
    var x, y := SortBy(c, IndexKey), SortBy(d, IndexKey);
    SortedKeysUnique(x, y, IndexKey);
    assert |x| == |Keys(x, IndexKey)|;
    forall i | 0 <= i < |x| ensures x[i].index == y[i].index {
      assert x[i].index == Keys(x, IndexKey)[i];
      assert y[i].index == Keys(y, IndexKey)[i];
    }
  }

  /** `sort!` is not stable, but any duration order of the long titles gives the same
      suggestion: ties share a duration, so the baseline and the survivors agree, and
      the final order is by index. */
  lemma PlanTieFree(ts: seq<TitleInfo>, v: seq<TitleInfo>)
    requires multiset(v) == multiset(Filter(ts, LongTitle))
    requires SortedBy(v, DurationKey)
    ensures PlanFor(Survivors(v)) == Plan(ts)
  {
    var u := Usable(ts);
    SortedKeysUnique(v, u, DurationKey);
    SurvivorsPermutation(v, u);
    PlanForPermutation(Survivors(v), Candidates(ts));
  }

  /** Two orders of the same titles with the same durations position by position keep
      the same survivors. */
  lemma SurvivorsPermutation(v: seq<TitleInfo>, u: seq<TitleInfo>)
    requires multiset(v) == multiset(u)
    requires Keys(v, DurationKey) == Keys(u, DurationKey)
    ensures multiset(Survivors(v)) == multiset(Survivors(u))
  {
    SameLength(v, u);
    if |v| > 1 {
      var b := SameBaseline(v, u);
      FilterMultiset(v, u, Within(b));
    }
  }

  lemma SameBaseline(v: seq<TitleInfo>, u: seq<TitleInfo>) returns (b: int)
    requires |v| == |u| > 1
    requires Keys(v, DurationKey) == Keys(u, DurationKey)
    ensures Survivors(v) == Filter(v, Within(b)) && Survivors(u) == Filter(u, Within(b))
  {
    var n := |v| - 2;
    KeysAt(v, DurationKey, n);
    KeysAt(u, DurationKey, n);
    b := v[n].Duration();
  }

  // ---------------------------------------------------------------------------
  // The three branches
  // ---------------------------------------------------------------------------

  /** Where an episode of the plan comes from: a candidate, written as its index plus
      one (never its tool-reported number), taken whole or at one of its chapters. */
  lemma PlanSource(ts: seq<TitleInfo>, i: nat) returns (t: TitleInfo)
    requires i < |Plan(ts)|
    ensures t in Candidates(ts) && Plan(ts)[i].title == t.index + 1
    ensures Plan(ts)[i].chapters.AllChapters? ||
      exists j :: 0 <= j < |t.chapters| && Plan(ts)[i].chapters == Single(t.chapters[j].number)
  {
    var c := Candidates(ts);
    if |c| == 1 {
      t := c[0];
      var long := Filter(t.chapters, LongChapter);
      if |t.chapters| > 1 && |long| > 1 {
        var d := long[i];
        assert d in t.chapters;
      }
    } else {
      var byIndex := SortBy(c, IndexKey);
      t := byIndex[i];
      assert t in multiset(byIndex);
    }
  }

  /** Several candidates (or none): each one once, whole, by ascending index. */
  lemma PlanSeveral(ts: seq<TitleInfo>)
    requires |Candidates(ts)| != 1
    ensures |Plan(ts)| == |Candidates(ts)|
    ensures forall i :: 0 <= i < |Plan(ts)| ==> Plan(ts)[i].chapters == AllChapters
    ensures forall i, j :: 0 <= i < j < |Plan(ts)| ==> Plan(ts)[i].title <= Plan(ts)[j].title
  {
    PlanForSeveral(Candidates(ts));
  }

  lemma PlanForSeveral(c: seq<TitleInfo>)
    requires |c| != 1
    ensures |PlanFor(c)| == |c|
    ensures forall i :: 0 <= i < |PlanFor(c)| ==> PlanFor(c)[i].chapters == AllChapters
    ensures forall i, j :: 0 <= i < j < |PlanFor(c)| ==> PlanFor(c)[i].title <= PlanFor(c)[j].title
  {
    var byIndex := SortBy(c, IndexKey);
    assert |byIndex| == |multiset(c)| == |c|;
    assert PlanFor(c) == Whole(byIndex);
    assert forall i :: 0 <= i < |byIndex| ==> Whole(byIndex)[i].title == IndexKey(byIndex[i]) + 1;
  }

  /** ... and every candidate appears in it. */
  lemma PlanSeveralCovers(ts: seq<TitleInfo>, t: TitleInfo)
    requires |Candidates(ts)| != 1 && t in Candidates(ts)
    ensures Episode(t.index + 1, AllChapters) in Plan(ts)
  {
    PlanForCovers(Candidates(ts), t);
  }

  lemma PlanForCovers(c: seq<TitleInfo>, t: TitleInfo)
    requires |c| != 1 && t in c
    ensures Episode(t.index + 1, AllChapters) in PlanFor(c)
  {
    var byIndex := SortBy(c, IndexKey);
    assert t in multiset(byIndex);
    assert t in byIndex;
    var k :| 0 <= k < |byIndex| && byIndex[k] == t;
    assert PlanFor(c) == Whole(byIndex);
    assert Whole(byIndex)[k] == Episode(t.index + 1, AllChapters);
  }

  /** One candidate: its episodes name it alone, and it is split exactly when it has
      more than one chapter of which more than one is long, into those chapters in
      list order. */
  lemma PlanSingle(ts: seq<TitleInfo>)
    requires |Candidates(ts)| == 1
    ensures var t := Candidates(ts)[0];
      var long := Filter(t.chapters, LongChapter);
      && (forall i :: 0 <= i < |Plan(ts)| ==> Plan(ts)[i].title == t.index + 1)
      && (Plan(ts) == [Episode(t.index + 1, AllChapters)] <==> |t.chapters| <= 1 || |long| <= 1)
      && (|t.chapters| > 1 && |long| > 1 ==>
            |Plan(ts)| == |long| &&
            forall i :: 0 <= i < |long| ==> Plan(ts)[i].chapters == Single(long[i].number))
  {
    var t := Candidates(ts)[0];
    assert Plan(ts) == TitlePlan(t);
    TitlePlanShape(t);
  }

  lemma TitlePlanShape(t: TitleInfo)
    ensures var long := Filter(t.chapters, LongChapter);
      && (forall i :: 0 <= i < |TitlePlan(t)| ==> TitlePlan(t)[i].title == t.index + 1)
      && (TitlePlan(t) == [Episode(t.index + 1, AllChapters)] <==> |t.chapters| <= 1 || |long| <= 1)
      && (|t.chapters| > 1 && |long| > 1 ==>
            |TitlePlan(t)| == |long| &&
            forall i :: 0 <= i < |long| ==> TitlePlan(t)[i].chapters == Single(long[i].number))
  {
    var long := Filter(t.chapters, LongChapter);
    if |t.chapters| > 1 && |long| > 1 {
      assert TitlePlan(t)[0].chapters.Single?;
    }
  }

  // ---------------------------------------------------------------------------
  // The descriptor string
  // ---------------------------------------------------------------------------

  lemma TextsAreWords(es: seq<Episode>)
    ensures forall i :: 0 <= i < |Texts(es)| ==> IsWord(Texts(es)[i])
  {
    forall i | 0 <= i < |es| ensures IsWord(Texts(es)[i]) {
      EpisodeTextIsWord(es[i]);
    }
  }

  /** Splitting and parsing a rendered plan gives the plan back. */
  lemma RenderParses(es: seq<Episode>)
    ensures ParseDescriptor(Render(es)) == Some(es)
  {
    var ws := Texts(es);
    TextsAreWords(es);
    WordsJoin(ws);
    forall i | 0 <= i < |es| ensures ParseEpisode(ws[i]) == Some(es[i]) {
      ParseEpisodeText(es[i]);
    }
    var r := ParseAll(ws);
    assert r.Some?;
    assert forall i :: 0 <= i < |es| ==> r.value[i] == es[i];
    assert r.value == es;
  }

  /** The suggestion, taken as the answer, is read back as exactly the planned
      episodes. */
  lemma SuggestParses(ts: seq<TitleInfo>)
    ensures ParseDescriptor(Suggest(ts)) == Some(Plan(ts))
  {
    RenderParses(Plan(ts));
  }

  lemma {:induction false} JoinEmpty(ws: seq<string>)
    requires forall i :: 0 <= i < |ws| ==> IsWord(ws[i])
    ensures Join(ws) == "" <==> ws == []
  {
    if |ws| > 1 {
      assert |Join(ws)| >= |ws[0]|;
    }
  }

  lemma PlanNonEmpty(c: seq<TitleInfo>)
    ensures PlanFor(c) == [] <==> c == []
  {
    if |c| > 1 {
      assert |SortBy(c, IndexKey)| == |multiset(c)| == |c|;
    }
  }

  /** The suggestion is empty exactly when no title reaches 600 s. */
  lemma SuggestEmpty(ts: seq<TitleInfo>)
    ensures Suggest(ts) == "" <==> forall t :: t in ts ==> !LongTitle(t)
  {
    CandidatesExist(ts);
    PlanNonEmpty(Candidates(ts));
    TextsAreWords(Plan(ts));
    JoinEmpty(Texts(Plan(ts)));
  }

  // ---------------------------------------------------------------------------
  // The suggestion against the prompt
  // ---------------------------------------------------------------------------

  /** The titles are at their positions, and a chapter's number names a chapter of its
      title, as HandBrake numbers them. */
  predicate Numbered(ts: seq<TitleInfo>)
  {
    forall i :: 0 <= i < |ts| ==>
      ts[i].index == i &&
      forall j :: 0 <= j < |ts[i].chapters| ==> 1 <= ts[i].chapters[j].number <= |ts[i].chapters|
  }

  /** On such a disc the suggestion is accepted by the episode prompt as it stands,
      with the planned episodes. When no title is long it is the empty answer: that
      one does not match the pattern, but `readline` returns the default unchecked, so
      it is accepted with no episodes. */
  lemma SuggestionAccepted(ts: seq<TitleInfo>)
    requires Numbered(ts)
    ensures Attempt(Suggest(ts), ts) == Accepted(Plan(ts))
  {
    SuggestParses(ts);
    var p := Plan(ts);
    forall i | 0 <= i < |p| ensures EpisodeValid(p[i], ts) {
      var t := PlanSource(ts, i);
      CandidatesLong(ts, t);
      var k :| 0 <= k < |ts| && ts[k] == t;
    }
  }

  /** A rendered plan with at least one episode and every number at least 1 also
      matches the pattern typed answers must match. */
  lemma SuggestionMatchesPattern(ts: seq<TitleInfo>)
    requires Numbered(ts)
    requires exists t :: t in ts && LongTitle(t)
    ensures Grammar(Suggest(ts))
  {
    var p := Plan(ts);
    CandidatesExist(ts);
    PlanNonEmpty(Candidates(ts));
    forall i | 0 <= i < |p| ensures IsToken(Texts(p)[i]) {
      PlanPositive(ts, i);
      TokenText(p[i]);
    }
    GrammarJoin(Texts(p));
  }

  lemma PlanPositive(ts: seq<TitleInfo>, i: nat)
    requires Numbered(ts) && i < |Plan(ts)|
    ensures Positive(Plan(ts)[i])
  {
    var t := PlanSource(ts, i);
    CandidatesLong(ts, t);
    var k :| 0 <= k < |ts| && ts[k] == t;
  }

  /** The empty default fails the pattern yet is accepted, as zero episodes. */
  lemma EmptyDefault(ts: seq<TitleInfo>)
    ensures !Grammar("")
    ensures Attempt("", ts) == Accepted([])
  {
    assert Words("") == [];
  }

  /** From scan to suggestion: on any completed scan whose chapters are numbered within
      their titles, the suggestion is accepted with the planned episodes. */
  lemma ScanSuggestionAccepted(lines: seq<string>)
    requires Run(Initial, lines).Ok?
    requires var ts := Run(Initial, lines).value.titles;
      forall i, j :: 0 <= i < |ts| && 0 <= j < |ts[i].chapters| ==> 1 <= ts[i].chapters[j].number <= |ts[i].chapters|
    ensures var ts := Run(Initial, lines).value.titles;
      Attempt(Suggest(ts), ts) == Accepted(Plan(ts))
  {
    RunWellFormed(Initial, lines);
    SuggestionAccepted(Run(Initial, lines).value.titles);
  }
}
