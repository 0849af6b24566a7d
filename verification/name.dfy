/** `_extract_name` of libs/subliminal_patch/providers/zimuku.py: strip the
    Chinese part of a subtitle file name, keeping the Latin part and the
    extension. The stem is cut by one of three rules: all CJK characters
    precede every Latin letter (keep from the first letter on), all follow
    every letter (keep up to the first CJK character), or the two scripts
    interleave (keep the longest Latin run, the first one on ties). */
module ZimukuName {
  import opened Wrappers
  import opened PyStr

  /** `[a-zA-Z]`. */
  predicate IsLatin(c: char)
  {
    'a' <= c <= 'z' || 'A' <= c <= 'Z'
  }

  /** `[一-鿿]`: the CJK Unified Ideographs block. */
  predicate IsCjk(c: char)
  {
    '\U{4E00}' <= c <= '\U{9FFF}'
  }

  /** The two character classes the name is split on. */
  datatype Class = Latin | Cjk

  predicate InClass(c: char, cls: Class)
  {
    if cls == Latin then IsLatin(c) else IsCjk(c)
  }

  predicate HasLatin(s: string)
  {
    exists k | 0 <= k < |s| :: IsLatin(s[k])
  }

  /** The first index at or after `i` holding a character of class `cls`,
      or `|s|` when there is none. */
  function NextIn(s: string, i: nat, cls: Class): (r: nat)
    requires i <= |s|
    ensures i <= r <= |s|
    ensures forall k | i <= k < r :: !InClass(s[k], cls)
    ensures r < |s| ==> InClass(s[r], cls)
    decreases |s| - i
  {
    if i == |s| || InClass(s[i], cls) then i else NextIn(s, i + 1, cls)
  }

  /** The last index holding a character of class `cls`, or -1 (the last
      match of a `re.finditer` scan). */
  function LastIn(s: string, cls: Class): (r: int)
    ensures -1 <= r < |s|
    ensures r >= 0 ==> InClass(s[r], cls)
    ensures forall k | r < k < |s| :: !InClass(s[k], cls)
  {
    if |s| == 0 then -1
    else if InClass(s[|s| - 1], cls) then |s| - 1
    else LastIn(s[..|s| - 1], cls)
  }

  /** The first index holding a character of class `cls`, or -1. */
  function FirstIn(s: string, cls: Class): (r: int)
    ensures -1 <= r < |s|
    ensures r >= 0 ==> InClass(s[r], cls)
    ensures forall k | 0 <= k < |s| && (r == -1 || k < r) :: !InClass(s[k], cls)
  {
    var n := NextIn(s, 0, cls);
    if n == |s| then -1 else n
  }

  // ---------------------------------------------------------------------------
  // Latin runs

  /** A window `[lo, hi)` of the stem. */
  datatype Window = Window(lo: nat, hi: nat)

  function Len(w: Window): int
  {
    w.hi - w.lo
  }

  /** `a` starts a Latin run: it is a Latin letter, and a CJK character
      separates it from every Latin letter before it. */
  predicate RunStart(s: string, a: int)
  {
    && 0 <= a < |s|
    && IsLatin(s[a])
    && forall k | 0 <= k < a && IsLatin(s[k]) :: CjkBetween(s, k, a)
  }

  /** Some CJK character lies strictly between `k` and `a`. */
  predicate CjkBetween(s: string, k: int, a: int)
    requires 0 <= k <= a <= |s|
  {
    exists j | k < j < a :: IsCjk(s[j])
  }

  /** A run extends from its start up to the next CJK character (or the end);
      it may hold digits, dots and spaces as well as letters. */
  function RunEnd(s: string, a: nat): (r: nat)
    requires a <= |s|
    ensures a <= r <= |s|
  {
    NextIn(s, a, Cjk)
  }

  function RunLen(s: string, a: nat): int
    requires a <= |s|
  {
    RunEnd(s, a) - a
  }

  /** `w` is exactly the run starting at `w.lo`. */
  predicate IsRun(s: string, w: Window)
  {
    RunStart(s, w.lo) && w.hi == RunEnd(s, w.lo)
  }

  /** `best` is what the scan holds once every run starting before `pos` has
      been examined: either still the initial window, no run so far being
      longer, or the first of the longest runs so far, longer than the
      initial window. */
  predicate ScannedUpTo(s: string, init: Window, pos: int, best: Window)
  {
    || (&& best == init
        && forall a | 0 <= a < pos && RunStart(s, a) :: RunLen(s, a) <= Len(init))
    || (&& IsRun(s, best)
        && best.lo < pos
        && Len(best) > Len(init)
        && (forall a | 0 <= a < pos && RunStart(s, a) :: RunLen(s, a) <= Len(best))
        && (forall a | 0 <= a < best.lo && RunStart(s, a) :: RunLen(s, a) < Len(best)))
  }

  /** `w` is the first longest Latin run of `s` if it is longer than `init`,
      and `init` otherwise. */
  predicate FirstLongest(s: string, init: Window, w: Window)
  {
    ScannedUpTo(s, init, |s|, w)
  }

  /** A run is never empty and never holds a CJK character. */
  lemma RunShape(s: string, w: Window)
    requires IsRun(s, w)
    ensures w.lo < w.hi <= |s|
    ensures forall k | w.lo <= k < w.hi :: !IsCjk(s[k])
  {
  }

  /** The scan's result is the starting window or a whole run. */
  lemma FirstLongestShape(s: string, init: Window, w: Window)
    requires FirstLongest(s, init, w)
    ensures w == init || (w.lo < w.hi <= |s| && forall k | w.lo <= k < w.hi :: !IsCjk(s[k]))
  {
    if w != init {
      RunShape(s, w);
    }
  }

  /** One turn of the outer scan loop: skip to the next Latin letter, which
      starts a run; extend the run up to the next CJK character; keep the run
      when it beats the best so far; resume after that CJK character. */
  lemma {:induction false} ScanStep(s: string, init: Window, pos: nat, best: Window)
    requires pos < |s|
    requires pos == 0 || IsCjk(s[pos - 1])
    requires ScannedUpTo(s, init, pos, best)
    requires NextIn(s, pos, Latin) < |s|
    ensures
      var start := NextIn(s, pos, Latin);
      var end := NextIn(s, start, Cjk);
      && (end + 1 > |s| || IsCjk(s[end]))
      && ScannedUpTo(s, init, end + 1, if end - start > Len(best) then Window(start, end) else best)
  {
    var start := NextIn(s, pos, Latin);
    var end := NextIn(s, start, Cjk);
    assert RunStart(s, start) by {
      forall k | 0 <= k < start && IsLatin(s[k]) ensures CjkBetween(s, k, start) {
        assert InClass(s[k], Latin);
        assert k < pos - 1 && IsCjk(s[pos - 1]);
      }
    }
    assert RunEnd(s, start) == end;
    forall a | pos <= a < end + 1 && a != start
      ensures !RunStart(s, a)
    {
      if a < start {
        assert !InClass(s[a], Latin);
      } else if a < end {
        forall j | start < j < a ensures !IsCjk(s[j]) {
          assert !InClass(s[j], Cjk);
        }
        assert IsLatin(s[start]) && !CjkBetween(s, start, a);
      } else if a < |s| {
        assert InClass(s[a], Cjk);
      }
    }
  }

  /** The outer loop of the interleaved case, from position `pos` on. */
  function Scan(s: string, init: Window, pos: nat, best: Window): (r: Window)
    requires pos <= |s| + 1
    requires pos == 0 || pos > |s| || IsCjk(s[pos - 1])
    requires ScannedUpTo(s, init, pos, best)
    ensures FirstLongest(s, init, r)
    decreases |s| + 1 - pos
  {
    if pos >= |s| then best
    else
      var start := NextIn(s, pos, Latin);
      if start == |s| then
        assert forall a | pos <= a < |s| :: !RunStart(s, a) by {
          forall a | pos <= a < |s| ensures !RunStart(s, a) {
            assert !InClass(s[a], Latin);
          }
        }
        best
      else
        var end := NextIn(s, start, Cjk);
        ScanStep(s, init, pos, best);
        Scan(s, init, end + 1, if end - start > Len(best) then Window(start, end) else best)
  }

  /** At most one window is the first longest run (or the initial window). */
  lemma FirstLongestUnique(s: string, init: Window, w1: Window, w2: Window)
    requires FirstLongest(s, init, w1) && FirstLongest(s, init, w2)
    ensures w1 == w2
  {
  }

  // ---------------------------------------------------------------------------
  // The three cases

  /** Every CJK character precedes every Latin letter (true when there is no
      CJK character at all). */
  predicate CjkBeforeLatin(s: string)
  {
    forall i, j | 0 <= i < |s| && 0 <= j < |s| && IsCjk(s[i]) && IsLatin(s[j]) :: i < j
  }

  /** Every CJK character follows every Latin letter. */
  predicate CjkAfterLatin(s: string)
  {
    forall i, j | 0 <= i < |s| && 0 <= j < |s| && IsCjk(s[i]) && IsLatin(s[j]) :: j < i
  }

  /** The two one-sided cuts of `_extract_name`, decided by comparing the
      first and last Latin and CJK indices; `None` when the scripts
      interleave:
      - CJK only before the letters: from the first letter to the end;
      - CJK only after the letters: from the start up to the first CJK
        character, so every letter is kept. */
  function OneSidedCut(s: string): (r: Option<Window>)
    requires HasLatin(s)
    ensures r.Some? <==> CjkBeforeLatin(s) || CjkAfterLatin(s)
    ensures r.Some? ==> r.value.lo <= r.value.hi <= |s|
    ensures CjkBeforeLatin(s) ==>
      && r.Some?
      && r.value.lo < |s| && IsLatin(s[r.value.lo])
      && (forall k | 0 <= k < r.value.lo :: !IsLatin(s[k]))
      && r.value.hi == |s|
      && (forall k | r.value.lo <= k < r.value.hi :: !IsCjk(s[k]))
    ensures !CjkBeforeLatin(s) && CjkAfterLatin(s) ==>
      && r.Some?
      && r.value.lo == 0
      && r.value.hi < |s| && IsCjk(s[r.value.hi])
      && (forall k | 0 <= k < r.value.hi :: !IsCjk(s[k]))
      && (forall k | r.value.hi <= k < |s| :: !IsLatin(s[k]))
  {
    var firstLatin := NextIn(s, 0, Latin);
    var lastLatin := LastIn(s, Latin);
    var firstCjk := FirstIn(s, Cjk);
    var lastCjk := LastIn(s, Cjk);
    assert firstLatin < |s| by {
      var k :| 0 <= k < |s| && IsLatin(s[k]);
      assert InClass(s[k], Latin);
    }
    assert InClass(s[firstLatin], Latin);
    assert InClass(s[lastLatin], Latin);
    CasesDecided(s, firstLatin, lastLatin, firstCjk, lastCjk);
    if lastCjk < firstLatin then
      Some(Window(firstLatin, |s|))
    else if lastLatin < firstCjk then
      Some(Window(0, firstCjk))
    else
      None
  }

  /** The part of the stem `_extract_name` keeps, before stripping: a
      one-sided cut, or else, when the scripts interleave, the first longest
      Latin run if it is longer than the starting window `init`, and `init`
      otherwise. */
  function KeptWindow(s: string, init: Window): (w: Window)
    requires HasLatin(s)
    requires init.lo <= init.hi <= |s|
    ensures w.lo <= w.hi <= |s|
    ensures OneSidedCut(s).Some? ==> w == OneSidedCut(s).value
    ensures OneSidedCut(s).None? ==> FirstLongest(s, init, w)
  {
    match OneSidedCut(s)
    case Some(cut) => cut
    case None =>
      var w := Scan(s, init, 0, init);
      assert w.lo <= w.hi <= |s| by {
        if w != init {
          RunShape(s, w);
        }
      }
      w
  }

  /** The index comparisons of `_extract_name` decide the two one-sided cases. */
  lemma CasesDecided(s: string, firstLatin: int, lastLatin: int, firstCjk: int, lastCjk: int)
    requires 0 <= firstLatin <= lastLatin < |s|
    requires IsLatin(s[firstLatin]) && IsLatin(s[lastLatin])
    requires forall k | 0 <= k < firstLatin :: !IsLatin(s[k])
    requires forall k | lastLatin < k < |s| :: !IsLatin(s[k])
    requires firstCjk == FirstIn(s, Cjk) && lastCjk == LastIn(s, Cjk)
    ensures lastCjk < firstLatin <==> CjkBeforeLatin(s)
    ensures lastCjk >= firstLatin ==> (lastLatin < firstCjk <==> CjkAfterLatin(s))
    ensures lastCjk < firstLatin ==> forall k | firstLatin <= k < |s| :: !IsCjk(s[k])
    ensures lastLatin < firstCjk ==> forall k | 0 <= k < firstCjk :: !IsCjk(s[k])
  {
    forall k | lastCjk < k < |s| ensures !IsCjk(s[k]) {
      assert !InClass(s[k], Cjk);
    }
    forall k | 0 <= k < |s| && (firstCjk == -1 || k < firstCjk) ensures !IsCjk(s[k]) {
      assert !InClass(s[k], Cjk);
    }
    if lastCjk >= 0 {
      assert InClass(s[lastCjk], Cjk);
    }
    if firstCjk >= 0 {
      assert InClass(s[firstCjk], Cjk);
    }
  }

  // ---------------------------------------------------------------------------
  // The name

  /** `_extract_name(name)`, as written: an empty result when the stem has
      no Latin letter; otherwise the kept part of the stem, stripped, followed
      by the extension. The interleaved scan starts from the window [0, 1). */
  function ExtractName(name: string): (r: string)
    ensures !HasLatin(SplitExt(name).0) ==> r == ""
    ensures HasLatin(SplitExt(name).0) ==>
      var stem := SplitExt(name).0;
      var w := KeptWindow(stem, Window(0, 1));
      r == Strip(stem[w.lo..w.hi]) + SplitExt(name).1
  {
    ExtractWith(name, Window(0, 1))
  }

  /** `_extract_name` with the interleaved scan starting from the empty
      window [0, 0): the first longest run always wins. */
  function ExtractNameIntended(name: string): (r: string)
    ensures !HasLatin(SplitExt(name).0) ==> r == ""
    ensures HasLatin(SplitExt(name).0) ==>
      var stem := SplitExt(name).0;
      var w := KeptWindow(stem, Window(0, 0));
      r == Strip(stem[w.lo..w.hi]) + SplitExt(name).1
  {
    ExtractWith(name, Window(0, 0))
  }

  function ExtractWith(name: string, init: Window): string
    requires init.lo <= init.hi <= 1
  {
    var stem := SplitExt(name).0;
    var suffix := SplitExt(name).1;
    if !HasLatin(stem) then ""
    else
      var w := KeptWindow(stem, init);
      Strip(stem[w.lo..w.hi]) + suffix
  }

  // ---------------------------------------------------------------------------
  // Properties

  /** The Latin letters of `s`, in order. */
  function LatinOf(s: string): string
  {
    if |s| == 0 then []
    else LatinOf(s[..|s| - 1]) + (if IsLatin(s[|s| - 1]) then [s[|s| - 1]] else [])
  }

  lemma {:induction false} LatinOfAppend(a: string, b: string)
    ensures LatinOf(a + b) == LatinOf(a) + LatinOf(b)
  {
    if |b| == 0 {
      assert a + b == a;
    } else {
      assert (a + b)[..|a + b| - 1] == a + b[..|b| - 1];
      LatinOfAppend(a, b[..|b| - 1]);
    }
  }

  lemma {:induction false} LatinOfNone(s: string)
    requires forall k | 0 <= k < |s| :: !IsLatin(s[k])
    ensures LatinOf(s) == []
  {
    if |s| > 0 {
      LatinOfNone(s[..|s| - 1]);
    }
  }

  /** Stripping removes whitespace only, never a Latin letter. */
  lemma StripKeepsLatin(x: string)
    ensures LatinOf(Strip(x)) == LatinOf(x)
  {
    var w := Window(LeadingSpaces(x), LeadingSpaces(x) + |Strip(x)|);
    forall k | 0 <= k < |x| && !(w.lo <= k < w.hi) ensures !IsLatin(x[k]) {
      assert IsSpace(x[k]);
    }
    LatinOutsideNone(x, w);
  }

  lemma SplitThree(s: string, lo: int, hi: int)
    requires 0 <= lo <= hi <= |s|
    ensures s == s[..lo] + s[lo..hi] + s[hi..]
  {
  }

  /** The Latin letters of `s` are those before, inside and after a window. */
  lemma WindowSplit(s: string, w: Window)
    requires w.lo <= w.hi <= |s|
    ensures LatinOf(s) == LatinOf(s[..w.lo]) + LatinOf(s[w.lo..w.hi]) + LatinOf(s[w.hi..])
  {
    SplitThree(s, w.lo, w.hi);
    LatinOfAppend(s[..w.lo] + s[w.lo..w.hi], s[w.hi..]);
    LatinOfAppend(s[..w.lo], s[w.lo..w.hi]);
  }

  /** A window with no Latin letter outside it holds all the Latin letters. */
  lemma LatinOutsideNone(s: string, w: Window)
    requires w.lo <= w.hi <= |s|
    requires forall k | 0 <= k < |s| && !(w.lo <= k < w.hi) :: !IsLatin(s[k])
    ensures LatinOf(s[w.lo..w.hi]) == LatinOf(s)
  {
    var before := LatinOf(s[..w.lo]);
    var inside := LatinOf(s[w.lo..w.hi]);
    var after := LatinOf(s[w.hi..]);
    assert LatinOf(s) == before + inside + after by {
      WindowSplit(s, w);
    }
    assert before == [] by {
      PrefixNoLatin(s, w.lo);
    }
    assert after == [] by {
      SuffixNoLatin(s, w.hi);
    }
    assert before + inside + after == inside;
  }

  lemma PrefixNoLatin(s: string, lo: nat)
    requires lo <= |s|
    requires forall k | 0 <= k < lo :: !IsLatin(s[k])
    ensures LatinOf(s[..lo]) == []
  {
    var p := s[..lo];
    forall k | 0 <= k < |p| ensures !IsLatin(p[k]) {
      assert p[k] == s[k];
    }
    LatinOfNone(p);
  }

  lemma SuffixNoLatin(s: string, hi: nat)
    requires hi <= |s|
    requires forall k | hi <= k < |s| :: !IsLatin(s[k])
    ensures LatinOf(s[hi..]) == []
  {
    var p := s[hi..];
    forall k | 0 <= k < |p| ensures !IsLatin(p[k]) {
      assert p[k] == s[hi + k];
    }
    LatinOfNone(p);
  }

  /** In a one-sided stem the kept part, once stripped, holds no CJK
      character and every Latin letter of the stem, in order. */
  lemma OneSidedKept(stem: string, init: Window)
    requires HasLatin(stem) && init.lo <= init.hi <= |stem|
    requires CjkBeforeLatin(stem) || CjkAfterLatin(stem)
    ensures
      var w := KeptWindow(stem, init);
      var kept := Strip(stem[w.lo..w.hi]);
      && (forall k | 0 <= k < |kept| :: !IsCjk(kept[k]))
      && LatinOf(kept) == LatinOf(stem)
  {
    var w := KeptWindow(stem, init);
    OneSidedWindow(stem, init);
    var core := stem[w.lo..w.hi];
    assert LatinOf(core) == LatinOf(stem) by {
      LatinOutsideNone(stem, w);
    }
    assert forall k | 0 <= k < |core| :: !IsCjk(core[k]) by {
      SliceNoCjk(stem, w.lo, w.hi);
    }
    NoCjkStripped(core);
    StripKeepsLatin(core);
  }

  /** A one-sided cut holds no CJK character and leaves no Latin letter out. */
  lemma OneSidedWindow(stem: string, init: Window)
    requires HasLatin(stem) && init.lo <= init.hi <= |stem|
    requires CjkBeforeLatin(stem) || CjkAfterLatin(stem)
    ensures
      var w := KeptWindow(stem, init);
      && w.lo <= w.hi <= |stem|
      && (forall k | w.lo <= k < w.hi :: !IsCjk(stem[k]))
      && (forall k | 0 <= k < |stem| && !(w.lo <= k < w.hi) :: !IsLatin(stem[k]))
  {
    if CjkBeforeLatin(stem) {
    } else {
    }
  }

  /** Stripping a CJK-free string leaves it CJK-free. */
  lemma NoCjkStripped(core: string)
    requires forall k | 0 <= k < |core| :: !IsCjk(core[k])
    ensures forall k | 0 <= k < |Strip(core)| :: !IsCjk(Strip(core)[k])
  {
    var kept := Strip(core);
    forall k | 0 <= k < |kept| ensures !IsCjk(kept[k]) {
      assert kept[k] == core[LeadingSpaces(core) + k];
    }
  }

  /** A result built as `kept + suffix` splits back into its two parts. */
  lemma ResultParts(r: string, kept: string, suffix: string)
    requires r == kept + suffix
    ensures |suffix| <= |r| && r[|r| - |suffix|..] == suffix && r[..|r| - |suffix|] == kept
    ensures forall k | 0 <= k < |kept| :: r[k] == kept[k]
  {
  }

  /** When the CJK characters all precede or all follow the Latin letters,
      the name keeps its extension, loses every CJK character of the stem,
      and keeps every Latin letter of the stem, in order. */
  lemma OneSidedKeepsLatinOnly(name: string)
    requires HasLatin(SplitExt(name).0)
    requires CjkBeforeLatin(SplitExt(name).0) || CjkAfterLatin(SplitExt(name).0)
    ensures
      var stem := SplitExt(name).0;
      var suffix := SplitExt(name).1;
      var r := ExtractName(name);
      && |suffix| <= |r| && r[|r| - |suffix|..] == suffix
      && (forall k | 0 <= k < |r| - |suffix| :: !IsCjk(r[k]))
      && LatinOf(r[..|r| - |suffix|]) == LatinOf(stem)
  {
    var stem := SplitExt(name).0;
    var suffix := SplitExt(name).1;
    var w := KeptWindow(stem, Window(0, 1));
    var kept := Strip(stem[w.lo..w.hi]);
    var r := ExtractName(name);
    OneSidedKept(stem, Window(0, 1));
    ResultParts(r, kept, suffix);
  }

  /** With the empty starting window the kept part never holds a CJK
      character: an interleaved stem keeps a whole Latin run or nothing. */
  lemma IntendedKeptNoCjk(stem: string)
    requires HasLatin(stem)
    ensures
      var w := KeptWindow(stem, Window(0, 0));
      forall k | 0 <= k < |Strip(stem[w.lo..w.hi])| :: !IsCjk(Strip(stem[w.lo..w.hi])[k])
  {
    var w := KeptWindow(stem, Window(0, 0));
    assert forall k | 0 <= k < |stem[w.lo..w.hi]| :: !IsCjk(stem[w.lo..w.hi][k]) by {
      IntendedWindowNoCjk(stem);
      SliceNoCjk(stem, w.lo, w.hi);
    }
    NoCjkStripped(stem[w.lo..w.hi]);
  }

  /** The window kept from the empty starting window holds no CJK character. */
  lemma IntendedWindowNoCjk(stem: string)
    requires HasLatin(stem)
    ensures
      var w := KeptWindow(stem, Window(0, 0));
      forall k | w.lo <= k < w.hi :: !IsCjk(stem[k])
  {
    var w := KeptWindow(stem, Window(0, 0));
    if OneSidedCut(stem).None? {
      FirstLongestShape(stem, Window(0, 0), w);
    } else if CjkBeforeLatin(stem) {
    } else {
      assert CjkAfterLatin(stem);
    }
  }

  lemma SliceNoCjk(s: string, lo: nat, hi: nat)
    requires lo <= hi <= |s|
    requires forall k | lo <= k < hi :: !IsCjk(s[k])
    ensures forall k | 0 <= k < |s[lo..hi]| :: !IsCjk(s[lo..hi][k])
  {
    forall k | 0 <= k < |s[lo..hi]| ensures !IsCjk(s[lo..hi][k]) {
      assert s[lo..hi][k] == s[lo + k];
    }
  }

  /** With the empty starting window, no CJK character of the stem ever
      survives: the kept part is a one-sided cut, a whole Latin run, or
      empty. */
  lemma IntendedDropsCjk(name: string)
    ensures
      var suffix := SplitExt(name).1;
      var r := ExtractNameIntended(name);
      && (HasLatin(SplitExt(name).0) ==> |suffix| <= |r| && r[|r| - |suffix|..] == suffix)
      && (forall k | 0 <= k < |r| - |suffix| :: !IsCjk(r[k]))
  {
    var stem := SplitExt(name).0;
    var suffix := SplitExt(name).1;
    var r := ExtractNameIntended(name);
    if HasLatin(stem) {
      var w := KeptWindow(stem, Window(0, 0));
      var kept := Strip(stem[w.lo..w.hi]);
      assert r == kept + suffix;
      assert forall k | 0 <= k < |kept| :: !IsCjk(kept[k]) by {
        IntendedKeptNoCjk(stem);
      }
      ResultParts(r, kept, suffix);
    } else {
      assert r == "";
    }
  }

  /** Both scans pick the same window once some run is longer than one
      character, since that run beats either starting window. */
  lemma AgreeOnLongRun(s: string)
    requires exists a | RunStart(s, a) :: RunLen(s, a) >= 2
    ensures HasLatin(s)
    ensures KeptWindow(s, Window(0, 1)) == KeptWindow(s, Window(0, 0))
  {
    var a :| RunStart(s, a) && RunLen(s, a) >= 2;
    assert HasLatin(s);
    if OneSidedCut(s).None? {
      var w1 := KeptWindow(s, Window(0, 1));
      var w2 := KeptWindow(s, Window(0, 0));
      LongRunWins(s, Window(0, 1), w1, a);
      Rebase(s, Window(0, 1), Window(0, 0), w1);
      FirstLongestUnique(s, Window(0, 0), w1, w2);
    }
  }

  /** A run longer than the starting window makes the scan pick a run. */
  lemma LongRunWins(s: string, init: Window, w: Window, a: int)
    requires FirstLongest(s, init, w)
    requires RunStart(s, a) && RunLen(s, a) > Len(init)
    ensures w != init
  {
  }

  /** A run the scan picked over one starting window it also picks over any
      shorter one. */
  lemma Rebase(s: string, init1: Window, init2: Window, w: Window)
    requires FirstLongest(s, init1, w) && w != init1
    requires Len(init2) <= Len(init1)
    ensures FirstLongest(s, init2, w)
  {
  }

  /** So the two versions of `_extract_name` differ only on names whose
      Latin runs are all single characters. */
  lemma AsWrittenAgreesOnLongRuns(name: string)
    requires exists a | RunStart(SplitExt(name).0, a) :: RunLen(SplitExt(name).0, a) >= 2
    ensures ExtractName(name) == ExtractNameIntended(name)
  {
    AgreeOnLongRun(SplitExt(name).0);
  }

  /** The file name of the counterexample below: "中a中.srt". */
  const LeakName: string := "\U{4E2D}a\U{4E2D}.srt"

  lemma LeakNameSplits()
    ensures SplitExt(LeakName) == ("\U{4E2D}a\U{4E2D}", ".srt")
  {
    var p := LeakName;
    assert |p| == 7 && p[3] == '.';
    assert forall k | 0 <= k < 7 :: p[k] != '/';
    assert forall k | 3 < k < 7 :: p[k] != '.';
    assert RFind(p, '/') == -1;
    assert RFind(p, '.') == 3;
    assert HasNonDot(p, 0, 3) by {
      assert p[0] != '.';
    }
    assert p[..3] == "\U{4E2D}a\U{4E2D}";
    assert p[3..] == ".srt";
  }

  /** The stem "中a中" interleaves the scripts and has a single Latin run,
      "a", one character long. */
  lemma LeakStemRuns(s: string)
    requires s == "\U{4E2D}a\U{4E2D}"
    ensures HasLatin(s) && OneSidedCut(s).None?
    ensures forall a | RunStart(s, a) :: a == 1
    ensures RunStart(s, 1) && RunEnd(s, 1) == 2
  {
    assert IsLatin(s[1]) && IsCjk(s[0]) && IsCjk(s[2]);
    assert !CjkBeforeLatin(s) && !CjkAfterLatin(s);
    assert NextIn(s, 1, Cjk) == 2;
  }

  /** The scans on "中a中": from [0, 1) nothing beats the starting window;
      from [0, 0) the run "a" does. */
  lemma LeakWindows(s: string)
    requires s == "\U{4E2D}a\U{4E2D}"
    ensures HasLatin(s)
    ensures KeptWindow(s, Window(0, 1)) == Window(0, 1)
    ensures KeptWindow(s, Window(0, 0)) == Window(1, 2)
  {
    LeakStemRuns(s);
    assert FirstLongest(s, Window(0, 1), Window(0, 1));
    FirstLongestUnique(s, Window(0, 1), Window(0, 1), KeptWindow(s, Window(0, 1)));
    assert FirstLongest(s, Window(0, 0), Window(1, 2));
    FirstLongestUnique(s, Window(0, 0), Window(1, 2), KeptWindow(s, Window(0, 0)));
  }

  lemma LeakStrips(s: string)
    requires s == "\U{4E2D}a\U{4E2D}"
    ensures Strip(s[0..1]) == "\U{4E2D}"
    ensures Strip(s[1..2]) == "a"
  {
    assert !IsSpace(s[0]) && !IsSpace(s[1]);
  }

  /** The starting window [0, 1) lets a CJK character through: in "中a中.srt"
      the only Latin run, "a", is one character long, does not beat the
      starting window, and the first character of the stem is kept instead;
      the empty starting window keeps "a". */
  lemma AsWrittenLeaksCjk(name: string)
    requires name == LeakName
    ensures ExtractName(name) == "\U{4E2D}.srt"
    ensures ExtractNameIntended(name) == "a.srt"
  {
    var s := "\U{4E2D}a\U{4E2D}";
    assert ExtractName(name) == "\U{4E2D}" + ".srt" by {
      LeakNameSplits();
      LeakWindows(s);
      LeakStrips(s);
      ExtractAt(name, Window(0, 1), s, ".srt", Window(0, 1));
    }
    assert ExtractNameIntended(name) == "a" + ".srt" by {
      LeakNameSplits();
      LeakWindows(s);
      LeakStrips(s);
      ExtractAt(name, Window(0, 0), s, ".srt", Window(1, 2));
    }
    LeakResults();
  }

  lemma LeakResults()
    ensures "\U{4E2D}" + ".srt" == "\U{4E2D}.srt"
    ensures "a" + ".srt" == "a.srt"
  {
  }

  /** `_extract_name` once the stem, the extension and the kept window are
      known. */
  lemma ExtractAt(name: string, init: Window, stem: string, suffix: string, w: Window)
    requires init.lo <= init.hi <= 1
    requires SplitExt(name) == (stem, suffix) && HasLatin(stem)
    requires w == KeptWindow(stem, init)
    ensures ExtractWith(name, init) == Strip(stem[w.lo..w.hi]) + suffix
  {
  }
}
