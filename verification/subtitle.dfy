/** The matching and search-query pieces of libs/subliminal_patch/providers/
    zimuku.py: which properties a Zimuku subtitle matches for a video
    (`ZimukuSubtitle.get_matches`), and the search keyword the provider sends
    (`ZimukuProvider.query`). */
module ZimukuSubtitle {
  import opened Wrappers
  import opened PyStr

  /** Python truthiness of an optional integer: `None` and 0 are false. */
  predicate Truthy(v: Option<int>)
  {
    v.Some? && v.value != 0
  }

  // ---------------------------------------------------------------------------
  // Matches

  /** The kind of video the subtitle is matched against. */
  datatype VideoKind = Episode | Movie | OtherVideo

  datatype Video = Video(kind: VideoKind, year: Option<int>)

  /** The properties every episode match needs before a missing video year is
      forgiven. */
  const EpisodeKeys: set<string> := {"series", "season", "episode"}

  /** `get_matches(video)`. `guessed` stands for `guess_matches(video,
      guessit(version, ...))`, the properties the release name agrees on; it
      is consulted for episodes and movies only. 'year' is matched when the
      two years are equal (two missing years are equal), when the guess
      matched it, or, for an episode without a video year, when series,
      season and episode all matched. */
  function GetMatches(video: Video, subYear: Option<int>, guessed: set<string>): (r: set<string>)
    ensures r - {"year"} == if video.kind == OtherVideo then {} else guessed - {"year"}
    ensures "year" in r <==>
      || video.year == subYear
      || (video.kind != OtherVideo && "year" in guessed)
      || (video.kind == Episode && !Truthy(video.year) && EpisodeKeys <= guessed)
  {
    var matches := if video.year == subYear then {"year"} else {};
    match video.kind
    case Episode =>
      var matches := matches + guessed;
      if !Truthy(video.year) && EpisodeKeys <= matches then matches + {"year"} else matches
    case Movie =>
      matches + guessed
    case OtherVideo =>
      matches
  }

  /** Matching more properties in the release name never loses a match. */
  lemma MatchesMonotone(video: Video, subYear: Option<int>, g1: set<string>, g2: set<string>)
    requires g1 <= g2
    ensures GetMatches(video, subYear, g1) <= GetMatches(video, subYear, g2)
  {
    var r1 := GetMatches(video, subYear, g1);
    var r2 := GetMatches(video, subYear, g2);
    forall x | x in r1 ensures x in r2 {
      if x != "year" {
        assert x in r1 - {"year"};
        assert x in r2 - {"year"};
      }
    }
  }

  /** The year of the subtitle plays no part once the episode is matched on
      series, season and episode and the video has no year. */
  lemma YearlessEpisodeMatchesYear(video: Video, subYear: Option<int>, guessed: set<string>)
    requires video.kind == Episode && !Truthy(video.year) && EpisodeKeys <= guessed
    ensures GetMatches(video, subYear, guessed) == guessed + {"year"}
  {
    var r := GetMatches(video, subYear, guessed);
    forall x | x in guessed + {"year"} ensures x in r {
      if x != "year" {
        assert x in guessed - {"year"};
      }
    }
    forall x | x in r ensures x in guessed + {"year"} {
      if x != "year" {
        assert x in r - {"year"};
      }
    }
  }

  // ---------------------------------------------------------------------------
  // Search query

  /** The search keyword `query` builds: the season as ".Snn" (`{:02d}`: at
      least two characters, zero-filled after the sign) when it is truthy,
      otherwise the year as " yyyy" (`{:4d}`: `str(year)` right-justified
      with spaces in four columns) when that is truthy, otherwise the bare
      keyword. Each suffix reads back as the number it spells. */
  function QueryParams(keyword: string, season: Option<int>, year: Option<int>): (r: string)
    ensures |keyword| <= |r| && r[..|keyword|] == keyword
    ensures Truthy(season) ==>
      && |r| >= |keyword| + 4
      && r[|keyword|..|keyword| + 2] == ".S"
      && ParseInt(r[|keyword| + 2..]) == season
    ensures Truthy(season) ==>
      && |r| == |keyword| + 2 + Max(2, |SignedDecimal(season.value)|)
      && (r[|keyword| + 2] == '-' <==> season.value < 0)
      && (season.value > 0 ==> IsDigits(r[|keyword| + 2..]))
      && (season.value < 0 ==> IsDigits(r[|keyword| + 3..]))
    ensures !Truthy(season) && Truthy(year) ==>
      && |r| >= |keyword| + 5
      && r[|keyword|] == ' '
      && ParseInt(LStrip(r[|keyword| + 1..])) == year
    ensures !Truthy(season) && Truthy(year) ==>
      && |r| == |keyword| + 1 + Max(4, |SignedDecimal(year.value)|)
      && EndsWith(r, SignedDecimal(year.value))
      && (forall i | |keyword| + 1 <= i < |r| - |SignedDecimal(year.value)| :: r[i] == ' ')
    ensures !Truthy(season) && !Truthy(year) ==> r == keyword
  {
    if Truthy(season) then
      var f := FormatZeroPadded(season.value, 2);
      ZeroPaddedRoundTrip(season.value, 2);
      ThreeParts(keyword, ".S", f);
      SuffixFrom(keyword + ".S", f, 1);
      keyword + ".S" + f
    else if Truthy(year) then
      var f := FormatSpacePadded(year.value, 4);
      SpacePaddedRoundTrip(year.value, 4);
      ThreeParts(keyword, " ", f);
      SpacedTail(keyword + " ", f, |f| - |SignedDecimal(year.value)|, SignedDecimal(year.value));
      keyword + " " + f
    else
      keyword
  }

  /** Dropping `k` more characters past a prefix drops them from the suffix. */
  lemma SuffixFrom(a: string, f: string, k: nat)
    requires k <= |f|
    ensures (a + f)[|a| + k..] == f[k..]
    ensures |f| > 0 ==> (a + f)[|a|] == f[0]
  {
  }

  /** A suffix's leading run of spaces sits right after the prefix, and what
      the suffix ends with, the whole ends with. */
  lemma SpacedTail(a: string, f: string, n: nat, s: string)
    requires n <= |f|
    requires forall i | 0 <= i < n :: f[i] == ' '
    requires EndsWith(f, s)
    ensures forall i | |a| <= i < |a| + n :: (a + f)[i] == ' '
    ensures EndsWith(a + f, s)
  {
    forall i | |a| <= i < |a| + n ensures (a + f)[i] == ' ' {
      assert (a + f)[i] == f[i - |a|];
    }
    assert (a + f)[|a + f| - |s|..] == f[|f| - |s|..];
  }

  /** Where the three parts of a concatenation sit in it. */
  lemma ThreeParts(a: string, b: string, c: string)
    ensures (a + b + c)[..|a|] == a
    ensures (a + b + c)[|a|..|a| + |b|] == b
    ensures (a + b + c)[|a| + |b|..] == c
    ensures forall i | 0 <= i < |b| :: (a + b + c)[|a| + i] == b[i]
  {
  }

  /** A season wins over a year: the year never reaches the keyword when a
      season is given. */
  lemma SeasonHidesYear(keyword: string, season: int, y1: Option<int>, y2: Option<int>)
    requires season != 0
    ensures QueryParams(keyword, Some(season), y1) == QueryParams(keyword, Some(season), y2)
  {
  }
}
