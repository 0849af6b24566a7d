/** `_get_subtitle_from_archive` of libs/subliminal_patch/providers/zimuku.py:
    pick, among the members of a downloaded archive, the subtitle whose name
    best suggests Chinese (or Chinese-English) content. */
module ZimukuArchive {
  import opened Wrappers
  import opened PyStr

  newtype byte = x: int | 0 <= x < 256

  /** One archive member: its path inside the container and its bytes. */
  datatype Member = Member(name: string, content: seq<byte>)

  // ---------------------------------------------------------------------------
  // Filters

  /** Index `k` is where the base name of `name` begins: right after the
      last '/', or 0 when there is none. */
  predicate BaseNameAt(name: string, k: int)
    requires 0 <= k <= |name|
  {
    (k == 0 || name[k - 1] == '/') && forall m | k <= m < |name| :: name[m] != '/'
  }

  /** The base name starts with a dot (a hidden file). */
  predicate IsHidden(name: string)
  {
    exists k | 0 <= k < |name| :: BaseNameAt(name, k) && name[k] == '.'
  }

  /** `IsHidden` is the test `basename(name).startswith('.')`. */
  lemma HiddenIsDotBasename(name: string)
    ensures IsHidden(name) <==> StartsWith(Basename(name), ".")
  {
    var k := RFind(name, '/') + 1;
    assert BaseNameAt(name, k);
    assert Basename(name) == name[k..];
    if IsHidden(name) {
      var k' :| 0 <= k' < |name| && BaseNameAt(name, k') && name[k'] == '.';
      if k' < k {
        assert name[k - 1] == '/';
      } else if k < k' {
        assert name[k' - 1] == '/';
      }
      assert name[k..][0] == '.';
    }
    if StartsWith(Basename(name), ".") {
      assert name[k] == '.';
    }
  }

  /** The member survives both filters: not hidden, and its lower-cased name
      ends with one of the subtitle extensions. */
  predicate Eligible(name: string, exts: seq<string>)
  {
    !IsHidden(name) && EndsWithAny(Lower(name), exts)
  }

  // ---------------------------------------------------------------------------
  // Name markers, matched case-sensitively on the raw name

  /** "ass", "ssa" or "srt": a text subtitle format. */
  predicate FormatMarker(n: string)
  {
    Contains(n, "ass") || Contains(n, "ssa") || Contains(n, "srt")
  }

  /** "简体", "chs" or ".gb.": simplified Chinese. */
  predicate SimplifiedMarker(n: string)
  {
    Contains(n, "\U{7B80}\U{4F53}") || Contains(n, "chs") || Contains(n, ".gb.")
  }

  /** "繁体", "cht" or ".big5.": traditional Chinese. */
  predicate TraditionalMarker(n: string)
  {
    Contains(n, "\U{7E41}\U{4F53}") || Contains(n, "cht") || Contains(n, ".big5.")
  }

  /** "chs.eng", "chs&eng", "cht.eng" or "cht&eng": a Chinese-English pair. */
  predicate DualTrackMarker(n: string)
  {
    Contains(n, "chs.eng") || Contains(n, "chs&eng") || Contains(n, "cht.eng") || Contains(n, "cht&eng")
  }

  /** "中英", "简英", "繁英", "双语", "简体&英文" or "繁体&英文": bilingual. */
  predicate BilingualMarker(n: string)
  {
    || Contains(n, "\U{4E2D}\U{82F1}")
    || Contains(n, "\U{7B80}\U{82F1}")
    || Contains(n, "\U{7E41}\U{82F1}")
    || Contains(n, "\U{53CC}\U{8BED}")
    || Contains(n, "\U{7B80}\U{4F53}&\U{82F1}\U{6587}")
    || Contains(n, "\U{7E41}\U{4F53}&\U{82F1}\U{6587}")
  }

  /** The preference score of a member name: each marker group present adds
      its weight once. */
  function Heuristic(n: string): (r: int)
    ensures 0 <= r <= 11
  {
    (if FormatMarker(n) then 1 else 0)
    + (if SimplifiedMarker(n) then 2 else 0)
    + (if TraditionalMarker(n) then 2 else 0)
    + (if DualTrackMarker(n) then 2 else 0)
    + (if BilingualMarker(n) then 4 else 0)
  }

  /** What a score says about the name: it is odd exactly when a format
      marker is present; it reaches 4 beyond that bit exactly when the name is
      bilingual, or names both scripts, or names a Chinese-English pair and a
      script; it is 0 exactly when no marker is present and 11 exactly when
      every group is. */
  lemma HeuristicMeaning(n: string)
    ensures Heuristic(n) % 2 == 1 <==> FormatMarker(n)
    ensures Heuristic(n) >= 4 + (if FormatMarker(n) then 1 else 0) <==>
      || BilingualMarker(n)
      || (SimplifiedMarker(n) && TraditionalMarker(n))
      || (DualTrackMarker(n) && (SimplifiedMarker(n) || TraditionalMarker(n)))
    ensures Heuristic(n) == 0 <==>
      !FormatMarker(n) && !SimplifiedMarker(n) && !TraditionalMarker(n)
      && !DualTrackMarker(n) && !BilingualMarker(n)
    ensures Heuristic(n) == 11 <==>
      FormatMarker(n) && SimplifiedMarker(n) && TraditionalMarker(n)
      && DualTrackMarker(n) && BilingualMarker(n)
  {
  }

  // ---------------------------------------------------------------------------
  // Selection

  /** Member `i` is the first eligible member of maximal score: every
      eligible member scores at most as much, every earlier one strictly
      less. */
  predicate IsFirstBest(archive: seq<Member>, exts: seq<string>, i: int)
  {
    && 0 <= i < |archive|
    && Eligible(archive[i].name, exts)
    && (forall j | 0 <= j < |archive| && Eligible(archive[j].name, exts) ::
          Heuristic(archive[j].name) <= Heuristic(archive[i].name))
    && (forall j | 0 <= j < i && Eligible(archive[j].name, exts) ::
          Heuristic(archive[j].name) < Heuristic(archive[i].name))
  }

  /** At most one member is the first best one. */
  lemma FirstBestUnique(archive: seq<Member>, exts: seq<string>, i: int, j: int)
    requires IsFirstBest(archive, exts, i) && IsFirstBest(archive, exts, j)
    ensures i == j
  {
  }

  /** The rank the loop gives a member: its score when it passes the filters,
      and -1 (the loop's starting maximum, below every score) otherwise. */
  function Rank(m: Member, exts: seq<string>): (r: int)
    ensures r >= -1
  {
    if Eligible(m.name, exts) then Heuristic(m.name) else -1
  }

  /** The ranks of all members, in archive order. */
  function Ranks(archive: seq<Member>, exts: seq<string>): (r: seq<int>)
    ensures |r| == |archive|
    ensures forall j | 0 <= j < |archive| :: r[j] == Rank(archive[j], exts)
  {
    seq(|archive|, j requires 0 <= j < |archive| => Rank(archive[j], exts))
  }

  /** Among the first `n` ranks, `i` is the first one of maximal rank, and
      that rank is not -1. */
  predicate IsFirstMax(ranks: seq<int>, n: int, i: int)
    requires n <= |ranks|
  {
    && 0 <= i < n
    && ranks[i] >= 0
    && (forall j | 0 <= j < n :: ranks[j] <= ranks[i])
    && (forall j | 0 <= j < i :: ranks[j] < ranks[i])
  }

  /** The first maximal rank is the first best member. */
  lemma FirstMaxIsFirstBest(archive: seq<Member>, exts: seq<string>, i: int)
    ensures IsFirstMax(Ranks(archive, exts), |archive|, i) <==> IsFirstBest(archive, exts, i)
  {
    var ranks := Ranks(archive, exts);
    if IsFirstMax(ranks, |archive|, i) {
      assert Eligible(archive[i].name, exts);
      forall j | 0 <= j < |archive| && Eligible(archive[j].name, exts)
        ensures Heuristic(archive[j].name) <= Heuristic(archive[i].name)
      {
        assert ranks[j] <= ranks[i];
      }
      forall j | 0 <= j < i && Eligible(archive[j].name, exts)
        ensures Heuristic(archive[j].name) < Heuristic(archive[i].name)
      {
        assert ranks[j] < ranks[i];
      }
    }
    if IsFirstBest(archive, exts, i) {
      forall j | 0 <= j < |archive| ensures ranks[j] <= ranks[i] {
        assert ranks[j] == Rank(archive[j], exts);
      }
      forall j | 0 <= j < i ensures ranks[j] < ranks[i] {
        assert ranks[j] == Rank(archive[j], exts);
      }
    }
  }

  /** A member passes the filters exactly when its rank is not -1. */
  lemma NoneEligibleRanks(archive: seq<Member>, exts: seq<string>)
    ensures (forall j | 0 <= j < |archive| :: !Eligible(archive[j].name, exts)) <==>
      (forall j | 0 <= j < |archive| :: Ranks(archive, exts)[j] == -1)
  {
    var ranks := Ranks(archive, exts);
    if exists j | 0 <= j < |archive| :: Eligible(archive[j].name, exts) {
      var j :| 0 <= j < |archive| && Eligible(archive[j].name, exts);
      assert ranks[j] >= 0;
    }
  }

  /** The running-maximum scan of `_get_subtitle_from_archive`, over the
      members' ranks: the maximum starts at -1 and only a strictly greater
      rank replaces it, so filtered members are never picked and ties keep
      the earlier member. */
  method FirstMaxIndex(ranks: seq<int>) returns (best: nat, maxScore: int)
    requires forall j | 0 <= j < |ranks| :: ranks[j] >= -1
    ensures maxScore == -1 <==> forall j | 0 <= j < |ranks| :: ranks[j] == -1
    ensures maxScore != -1 ==> IsFirstMax(ranks, |ranks|, best) && ranks[best] == maxScore
  {
    maxScore := -1;
    best := 0;
    var i := 0;
    while i < |ranks|
      invariant 0 <= i <= |ranks|
      invariant maxScore == -1 <==> forall j | 0 <= j < i :: ranks[j] == -1
      invariant maxScore != -1 ==> IsFirstMax(ranks, i, best) && ranks[best] == maxScore
    {
      if ranks[i] > maxScore {
        maxScore := ranks[i];
        best := i;
      }
      i := i + 1;
    }
  }

  /** The selection of `_get_subtitle_from_archive`: rank every member in
      archive order, then keep the first one of maximal rank, if any member
      passed the filters. */
  method SelectMember(archive: seq<Member>, exts: seq<string>) returns (chosen: Option<nat>)
    ensures chosen.None? <==> forall j | 0 <= j < |archive| :: !Eligible(archive[j].name, exts)
    ensures chosen.Some? ==> IsFirstBest(archive, exts, chosen.value)
  {
    var ranks := Ranks(archive, exts);
    var best, maxScore := FirstMaxIndex(ranks);
    NoneEligibleRanks(archive, exts);
    if maxScore != -1 {
      chosen := Some(best);
      FirstMaxIsFirstBest(archive, exts, best);
    } else {
      chosen := None;
    }
  }

  /** `archive.read(name)`: the content of the member stored under `name`;
      when several members share the name, the last one (a zip or rar index
      keeps the last entry it sees for a name). */
  function Read(archive: seq<Member>, name: string): (r: Option<seq<byte>>)
    ensures r.None? <==> forall i | 0 <= i < |archive| :: archive[i].name != name
    ensures r.Some? ==> exists i | 0 <= i < |archive| ::
      && archive[i].name == name && archive[i].content == r.value
      && forall j | i < j < |archive| :: archive[j].name != name
  {
    if |archive| == 0 then None
    else if archive[|archive| - 1].name == name then Some(archive[|archive| - 1].content)
    else Read(archive[..|archive| - 1], name)
  }

  /** `_get_subtitle_from_archive`: the content of the first best member, read
      back by its name, or `None` when no member passes the filters. */
  method GetSubtitleFromArchive(archive: seq<Member>, exts: seq<string>) returns (content: Option<seq<byte>>)
    ensures content.None? <==> forall j | 0 <= j < |archive| :: !Eligible(archive[j].name, exts)
    ensures content.Some? ==> exists i ::
      IsFirstBest(archive, exts, i) && Read(archive, archive[i].name) == content
  {
    var chosen := SelectMember(archive, exts);
    if chosen.Some? {
      content := Read(archive, archive[chosen.value].name);
      assert IsFirstBest(archive, exts, chosen.value);
    } else {
      content := None;
    }
  }

  /** Only the extension test is case-blind: "A.SRT" passes the filter for
      ".srt", but the format marker is matched on the raw name and misses. */
  lemma MarkersAreCaseSensitive()
    ensures Eligible("A.SRT", [".srt"])
    ensures !FormatMarker("A.SRT") && FormatMarker("a.srt")
  {
    assert Eligible("A.SRT", [".srt"]) by {
      assert Lower("A.SRT") == "a.srt";
      assert EndsWith("a.srt", [".srt"][0]);
      assert !IsHidden("A.SRT");
    }
    MissingCharNotContained("A.SRT", "ass", 0);
    MissingCharNotContained("A.SRT", "ssa", 0);
    MissingCharNotContained("A.SRT", "srt", 0);
    assert Contains("a.srt", "srt") by {
      assert "srt" <= "a.srt"[2..];
      assert "a.srt"[1..][1..] == "a.srt"[2..];
    }
  }
}
