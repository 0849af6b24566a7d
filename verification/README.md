# Bazarr match scores and the Zimuku subtitle helpers, in Dafny

This project models two pieces of Bazarr and proves properties of them.

**Score tables** (`bazarr/subtitles/tools/score.py`). A `Score` holds `data`, a dict from
attribute name to points. It also holds the custom profiles and a flag saying whether they
have been loaded. `SeriesScore` and `MovieScore` fix the default table and the configuration
section they read. The derived `hash` entry is the sum of every other entry except
`hearing_impaired`. It is computed once when the object is built, and `reset` and `update`
never recompute it.

**The Zimuku provider's helpers** (`libs/subliminal_patch/providers/zimuku.py`):
- which member of a downloaded archive is chosen as the subtitle (`_get_subtitle_from_archive`);
- how the Chinese part of a subtitle file name is cut away (`_extract_name`);
- how a season number is spelled in Chinese numerals (`num_to_cn`);
- when a subtitle matches a video's year (`get_matches`);
- the search keyword `query` builds.

Files (one module each):

| file | module | models |
|---|---|---|
| `wrappers.dfy` | `Wrappers` | `Option` and `Result` |
| `pystr.dfy` | `PyStr` | the Python `str` and `os.path` operations the helpers use |
| `scoring.dfy` | `Scoring` | `Score`, `SeriesScore`, `MovieScore` |
| `archive.dfy` | `ZimukuArchive` | `_get_subtitle_from_archive` |
| `name.dfy` | `ZimukuName` | `_extract_name` |
| `numerals.dfy` | `ZimukuNumerals` | `num_to_cn` |
| `subtitle.dfy` | `ZimukuSubtitle` | `ZimukuSubtitle.get_matches`, the keyword of `ZimukuProvider.query` |

How the Python is represented:
- **Dicts.** A Python dict is a `Table`: the keys in insertion order plus a map. So `update`
  keeps the place of an existing key and appends a new one, as Python does.
- **Score methods.** Every method of `Score` is a pure function from the old state to the new.
- **Errors.** Python exceptions become `Result` failures:
  - the `KeyError` of a missing configuration section;
  - the `TypeError` of a keyword bound twice. This happens when the settings hold a key `cls`
    (for `from_config`) or `self` (for `update`). It also happens when the section holds
    `self` or `load_profiles`, which `cls(True, **section)` already binds by position;
  - the failed `assert` of `num_to_cn`;
  - the missing `trans_map` key of `num_to_cn`.
- **Strings.** Strings are `seq<char>`, one code point per element, as in Python 3.

## Model

| member | source | states |
|---|---|---|
| Scoring.Put | bazarr/subtitles/tools/score.py:18 | `d[k] = v` sets exactly `k`. An existing key keeps its place; a new key goes last. |
| Scoring.Merge | bazarr/subtitles/tools/score.py:17 | `dict.update`: every key of the argument takes its new value. Every other key keeps its old value. No key is lost or invented. |
| Scoring.MergeIdempotent | bazarr/subtitles/tools/score.py:17 | Updating twice with the same dict is the same as updating once. |
| Scoring.MergeSingle | bazarr/subtitles/tools/score.py:48 | Updating with a one-entry dict is a single item assignment. |
| Scoring.MergePutNew | bazarr/subtitles/tools/score.py:17 | Updating with a dict that has one more (new) key is the same update followed by assigning that key. |
| Scoring.HashScore | bazarr/subtitles/tools/score.py:77-82 | `_hash_score`, the sum of every entry but `hash` and `hearing_impaired`. It has no contract of its own; its properties are stated by `HashScoreOrderFree` (independent of key order), `SumPutNew` (a new counted key adds its value), `RehashConsistent` and `DefaultHash`. |
| Scoring.HashScoreOrderFree | bazarr/subtitles/tools/score.py:77-82 | `_hash_score` depends only on the dict's contents, not on its key order. |
| Scoring.SumPutNew | bazarr/subtitles/tools/score.py:77-82 | A new counted key raises `_hash_score` by exactly its value. |
| Scoring.RehashConsistent | bazarr/subtitles/tools/score.py:18 | Writing `hash` does not change `_hash_score`, so the table is consistent right after `__init__` stores it. |
| Scoring.ConfiguredTable | bazarr/subtitles/tools/score.py:16-18 | The table `__init__` builds: the overrides win over the defaults, unknown keys are kept, and an overridden `hash` is replaced. `hash` equals the sum of the counted entries, both of the result and of the merged table. |
| Scoring.New | bazarr/subtitles/tools/score.py:15-23 | A new score is well formed and hash-consistent, has no profiles, and is marked loaded exactly when `load_profiles` was passed. |
| Scoring.LoadProfiles | bazarr/subtitles/tools/score.py:33-42 | Loading leaves the profile list empty, sets the flag and touches nothing else. |
| Scoring.CheckCustomProfiles | bazarr/subtitles/tools/score.py:25-31 | Profiles are loaded on first use only. The table is never changed. A name is added exactly when some loaded profile's check holds for the subtitle, and no match is dropped. |
| Scoring.AddMatching | bazarr/subtitles/tools/score.py:29-31 | The result is the given matches plus exactly the names of the profiles whose check holds. |
| Scoring.Reset | bazarr/subtitles/tools/score.py:44-45 | Every default key gets its default back (`hash` included, not recomputed). Other keys keep their values. No key is added or removed. |
| Scoring.ResetIdempotent | bazarr/subtitles/tools/score.py:44-45 | Resetting twice is resetting once. |
| Scoring.ResetRestoresDefaults | bazarr/subtitles/tools/score.py:44-45 | On a table holding only default keys, `reset` restores the default table exactly, which is hash-consistent. |
| Scoring.ResetLeavesHashStale | bazarr/subtitles/tools/score.py:44-45 | A score built with an unknown key worth `v != 0` has `hash` raised by `v`. After `reset`, `hash` is the default constant again while the counted entries still include `v`, so `hash` is stale. |
| Scoring.UnknownKeyRaisesHash | bazarr/subtitles/tools/score.py:16-18 | Building from a consistent table plus one unknown key raises `hash` by that key's value. |
| Scoring.ResetKeepsUnknownKey | bazarr/subtitles/tools/score.py:44-45 | Resetting such a table writes the old `hash` back but keeps the unknown key in the sum. |
| Scoring.DefaultsKept | bazarr/subtitles/tools/score.py:16-18 | Overrides that touch no default key other than `hash` leave every other default entry unchanged. |
| Scoring.UnknownOverrideCounted | bazarr/subtitles/tools/score.py:16-18 | An override key the defaults lack is kept, with its value, and raises the computed `hash` by that value. |
| Scoring.ConfiguredWithoutOverrides | bazarr/subtitles/tools/score.py:15-18 | Building from a consistent table with no overrides gives that table back unchanged. |
| Scoring.MergeCovered | bazarr/subtitles/tools/score.py:45 | Updating with a consistent table that has every key of the target gives exactly that table's contents, still consistent. |
| Scoring.MergeValuesCovered | bazarr/subtitles/tools/score.py:45 | Updating with a table that has every key of the target leaves exactly its contents. |
| Scoring.UpdateTable | bazarr/subtitles/tools/score.py:47-48 | `update` overwrites or adds exactly the given keys and keeps the rest. The result stays well formed. |
| Scoring.UpdateLeavesHashStale | bazarr/subtitles/tools/score.py:47-48 | Changing a counted entry through `update` makes a consistent `hash` stale. |
| Scoring.Update | bazarr/subtitles/tools/score.py:110-111 | `SeriesScore.update(**kwargs)` fails exactly when the keyword arguments hold a key `self` (a keyword bound twice, reported first) or lack the section. Otherwise it updates with its own section only. `MovieScore.update` (lines 134-135) is the same with `movie_scores`. |
| Scoring.FromConfig | bazarr/subtitles/tools/score.py:106-108 | `from_config(**kwargs)` fails exactly in three cases. The keyword arguments hold a key `cls`: a duplicate `cls`, reported first. The section is missing: a missing section. The section holds `self` or `load_profiles`, which `cls(True, **section)` binds by position (score.py:15): a duplicate naming one of the section's keys. Otherwise the result is `New(media, true, section)`: a score of the calling variant, with no profiles, marked loaded, whose table is built from that section. `MovieScore.from_config` is lines 130-132. |
| Scoring.FirstNamed | bazarr/subtitles/tools/score.py:108 | The keyword reported as bound twice is the first key, in the section's order, that names a positional parameter. There is none exactly when no key does. |
| Scoring.InitCollision | bazarr/subtitles/tools/score.py:15 | A section collides with `__init__`'s parameters exactly when it has a key `self` or `load_profiles`. The reported keyword is one of those keys. |
| Scoring.DefaultPairs | bazarr/subtitles/tools/score.py:90-104 | `SeriesScore.defaults`, with `MovieScore.defaults` at lines 116-128: the same keys, values and order. No key is declared twice, and `hash` is first. `SeriesDefaultSum`, `MovieDefaultSum` and `DefaultHash` state what the values add up to. |
| Scoring.DefaultTable | bazarr/subtitles/tools/score.py:90-104 | The defaults as a dict (lines 116-128 for movies): a proper table holding `hash` and `hearing_impaired`. `DefaultsSelfConsistent` states that a score built with no overrides is exactly this table. |
| Scoring.Section | bazarr/subtitles/tools/score.py:108 | The key each variant reads, `kwargs["series_scores"]` (lines 108 and 111) or `kwargs["movie_scores"]` (lines 132 and 135). It has no contract of its own; `FromConfig` and `Update` state what happens when it is missing. |
| Scoring.SeriesDefaultSum | bazarr/subtitles/tools/score.py:90-104 | The series defaults other than `hash` and `hearing_impaired` add up to 359. |
| Scoring.MovieDefaultSum | bazarr/subtitles/tools/score.py:116-128 | The movie defaults other than `hash` and `hearing_impaired` add up to 119. |
| Scoring.DefaultHash | bazarr/subtitles/tools/score.py:90-128 | Each default table is self-consistent: its `hash` constant (359 or 119) is the sum of its counted entries, and `hearing_impaired` is 1. |
| Scoring.DefaultsSelfConsistent | bazarr/subtitles/tools/score.py:15-23 | With no overrides the built table is the default table itself, and the maximum score is 360 for series and 120 for movies. |
| Scoring.CustomProfileScores | bazarr/subtitles/tools/score.py:61-63 | Maps exactly the profiles' names, each to the score of the last profile carrying that name. |
| Scoring.Scores | bazarr/subtitles/tools/score.py:65-67 | The keys are the table's plus the profiles' names. Table values win. Every other name takes the score of the last profile carrying it. |
| Scoring.MaxScore | bazarr/subtitles/tools/score.py:69-75 | When `hash` is consistent, the maximum is the sum of every entry but `hash`, plus the non-zero profile scores. |
| Scoring.ProfileBonus | bazarr/subtitles/tools/score.py:74 | The sum of the profiles' non-zero scores. It has no contract of its own; `ProfileRaisesMax` states that each appended profile adds its score, and `MaxScore` states where the sum enters. |
| Scoring.ProfileRaisesMax | bazarr/subtitles/tools/score.py:74 | Appending a profile raises the maximum by its score. |
| Scoring.GetScores | bazarr/subtitles/tools/score.py:54-59 | The threshold is `max * p / 100`, where `p` is `special` unless that is `None` or 0, in which case it is `min_percent`. Also returns the maximum itself and the set of scored names. |
| Scoring.SeriesThresholdAtNinety | bazarr/subtitles/tools/score.py:54-59 | A default series score at 90 percent has threshold 324, both with `special` `None` and with `special` 0. |
| PyStr.Basename | libs/subliminal_patch/providers/zimuku.py:352 | `os.path.split(p)[-1]` is the slash-free tail of `p` that follows its last '/'. |
| PyStr.SplitExt | libs/subliminal_patch/providers/zimuku.py:379 | `os.path.splitext`: the two parts concatenate to the input. A non-empty extension starts with the base name's last dot and follows some non-dot character. With no extension, the base name has no dot after a non-dot. |
| PyStr.Strip | libs/subliminal_patch/providers/zimuku.py:413 | `strip()` returns the slice left once whitespace is removed from both ends; it neither starts nor ends with whitespace. |
| PyStr.FormatZeroPadded | libs/subliminal_patch/providers/zimuku.py:171 | `{:02d}` of `n`. It is exactly as long as the wider of the width and `str(n)`, starts with '-' exactly when `n` is negative, and is digits after the sign. |
| PyStr.FormatSpacePadded | libs/subliminal_patch/providers/zimuku.py:173 | `{:4d}` of `n`. It is exactly as long as the wider of the width and `str(n)`: `str(n)` at the end, spaces before it. |
| PyStr.ZeroPaddedRoundTrip | libs/subliminal_patch/providers/zimuku.py:171 | `{:02d}` fills at least two columns and reads back as the same integer, negative ones included. |
| PyStr.SpacePaddedRoundTrip | libs/subliminal_patch/providers/zimuku.py:173 | `{:4d}` fills at least four columns and reads back as the same integer once its leading spaces are stripped. |
| PyStr.DecimalRoundTrip | libs/subliminal_patch/providers/zimuku.py:419 | `int(str(n)) == n` for every natural `n`. |
| ZimukuArchive.Eligible | libs/subliminal_patch/providers/zimuku.py:352-357 | The two filters: not hidden, and the lower-cased name ends with one of the extensions. `HiddenIsDotBasename` ties the hidden test to `os.path.split`, and `MarkersAreCaseSensitive` shows that only the extension test folds case. |
| ZimukuArchive.HiddenIsDotBasename | libs/subliminal_patch/providers/zimuku.py:352-353 | A member is hidden exactly when its base name starts with a dot. |
| ZimukuArchive.Heuristic | libs/subliminal_patch/providers/zimuku.py:360-368 | The name score is always between 0 and 11. |
| ZimukuArchive.HeuristicMeaning | libs/subliminal_patch/providers/zimuku.py:360-368 | The score is odd exactly when a format marker is present. Beyond that bit it reaches 4 exactly when the name is bilingual, names both scripts, or names a pair and a script. It is 0 exactly with no marker and 11 exactly with every group. |
| ZimukuArchive.NoneEligibleRanks | libs/subliminal_patch/providers/zimuku.py:374 | No member passes the filters exactly when every rank is -1. |
| ZimukuArchive.FirstMaxIndex | libs/subliminal_patch/providers/zimuku.py:370-372 | The running maximum starting at -1 ends at -1 exactly when every rank is -1. Otherwise it points at the first member of maximal rank. |
| ZimukuArchive.FirstMaxIsFirstBest | libs/subliminal_patch/providers/zimuku.py:370-372 | The first maximal rank is exactly the first eligible member of maximal score. |
| ZimukuArchive.FirstBestUnique | libs/subliminal_patch/providers/zimuku.py:370-372 | Ties keep the earlier member, so at most one member is the first best. |
| ZimukuArchive.SelectMember | libs/subliminal_patch/providers/zimuku.py:350-372 | Nothing is chosen exactly when no member passes the filters. Otherwise the first eligible member of maximal score is chosen. |
| ZimukuArchive.Read | libs/subliminal_patch/providers/zimuku.py:374 | Reading by name fails exactly when no member has the name. Otherwise it returns the content of the last member with that name. |
| ZimukuArchive.GetSubtitleFromArchive | libs/subliminal_patch/providers/zimuku.py:347-374 | The result is `None` exactly when no member passes the filters. Otherwise it is what reading the first best member's name returns. |
| ZimukuArchive.MarkersAreCaseSensitive | libs/subliminal_patch/providers/zimuku.py:356-360 | "A.SRT" passes the case-blind extension filter, but the case-sensitive format marker misses it and finds "a.srt". |
| ZimukuName.NextIn | libs/subliminal_patch/providers/zimuku.py:401-407 | The inner loops stop at the first index at or after the start that holds a character of the class, or at the end, skipping only characters outside it. |
| ZimukuName.LastIn | libs/subliminal_patch/providers/zimuku.py:382-392 | The last index of a `finditer` match list, or -1: the index holds the class and nothing after it does. |
| ZimukuName.FirstIn | libs/subliminal_patch/providers/zimuku.py:390-391 | The first index of a `finditer` match list, or -1: the index holds the class and nothing before it does. |
| ZimukuName.CasesDecided | libs/subliminal_patch/providers/zimuku.py:390-396 | Comparing the first and last indices decides exactly whether every CJK character precedes, or follows, every Latin letter. |
| ZimukuName.OneSidedCut | libs/subliminal_patch/providers/zimuku.py:390-396 | A one-sided cut exists exactly when the scripts do not interleave. CJK before the letters keeps from the first letter to the end. CJK after keeps from the start to the first CJK character. Either way the kept part holds no CJK character and every letter. |
| ZimukuName.RunShape | libs/subliminal_patch/providers/zimuku.py:405-407 | A Latin run is never empty and holds no CJK character. |
| ZimukuName.ScanStep | libs/subliminal_patch/providers/zimuku.py:400-411 | One outer iteration keeps the scan invariant: the best window is the start window or the first longest run among the runs passed so far. |
| ZimukuName.Scan | libs/subliminal_patch/providers/zimuku.py:399-412 | The interleaved scan ends with the first longest Latin run when it is longer than the start window, and with the start window otherwise. |
| ZimukuName.FirstLongestShape | libs/subliminal_patch/providers/zimuku.py:399-412 | The scan's result is the start window or a CJK-free run. |
| ZimukuName.FirstLongestUnique | libs/subliminal_patch/providers/zimuku.py:408-409 | The strict comparison makes the scan's result unique: the first of the longest runs. |
| ZimukuName.LongRunWins | libs/subliminal_patch/providers/zimuku.py:408-409 | A run longer than the start window displaces it. |
| ZimukuName.Rebase | libs/subliminal_patch/providers/zimuku.py:399-409 | A run that beat one start window is also the result from any shorter start window. |
| ZimukuName.KeptWindow | libs/subliminal_patch/providers/zimuku.py:393-412 | The kept part of the stem is the one-sided cut when there is one, and otherwise the result of the scan. |
| ZimukuName.ExtractName | libs/subliminal_patch/providers/zimuku.py:377-414 | `_extract_name` as written: empty when the stem has no Latin letter, else the stripped kept part followed by the extension. The scan starts from the window [0, 1). |
| ZimukuName.ExtractNameIntended | libs/subliminal_patch/providers/zimuku.py:377-414 | The same with the scan starting from the empty window [0, 0). |
| ZimukuName.StripKeepsLatin | libs/subliminal_patch/providers/zimuku.py:413 | Stripping never removes a Latin letter. |
| ZimukuName.NoCjkStripped | libs/subliminal_patch/providers/zimuku.py:413 | Stripping a CJK-free string leaves it CJK-free. |
| ZimukuName.LatinOutsideNone | libs/subliminal_patch/providers/zimuku.py:393-396 | A window with no Latin letter outside it holds every Latin letter, in order. |
| ZimukuName.OneSidedKept | libs/subliminal_patch/providers/zimuku.py:393-396 | In a one-sided stem the stripped kept part holds no CJK character and every Latin letter of the stem, in order. |
| ZimukuName.OneSidedKeepsLatinOnly | libs/subliminal_patch/providers/zimuku.py:377-414 | For such names the result ends with the extension, and before it holds no CJK character and every Latin letter of the stem, in order. |
| ZimukuName.IntendedKeptNoCjk | libs/subliminal_patch/providers/zimuku.py:399-413 | From the empty start window, the kept part never holds a CJK character. |
| ZimukuName.IntendedWindowNoCjk | libs/subliminal_patch/providers/zimuku.py:393-412 | From the empty start window, the kept window of the stem never holds a CJK character. |
| ZimukuName.IntendedDropsCjk | libs/subliminal_patch/providers/zimuku.py:377-414 | The corrected `_extract_name` keeps the extension, and no character before it is CJK, for every name. |
| ZimukuName.AgreeOnLongRun | libs/subliminal_patch/providers/zimuku.py:399-412 | Once some Latin run has at least two characters, both start windows give the same kept window. |
| ZimukuName.AsWrittenAgreesOnLongRuns | libs/subliminal_patch/providers/zimuku.py:399 | So the code as written and the corrected version differ only on names whose Latin runs are all one character long. |
| ZimukuName.LeakWindows | libs/subliminal_patch/providers/zimuku.py:399-412 | On "中a中", the start window [0, 1) survives the scan, while from [0, 0) the run "a" wins. |
| ZimukuName.AsWrittenLeaksCjk | libs/subliminal_patch/providers/zimuku.py:399 | `_extract_name("中a中.srt")` is "中.srt" as written, and "a.srt" from the empty start window. |
| ZimukuNumerals.TransMap | libs/subliminal_patch/providers/zimuku.py:421 | The digit table has exactly the keys '1' to '9', each mapped to its numeral. |
| ZimukuNumerals.Lookup | libs/subliminal_patch/providers/zimuku.py:424-427 | A lookup succeeds exactly for '1' to '9' and otherwise fails with a missing key. |
| ZimukuNumerals.NumToCn | libs/subliminal_patch/providers/zimuku.py:417-428 | Fails the assertion exactly when the input is not digits worth 1 to 99. Fails with a missing key exactly when such an input starts with '0'. Otherwise it spells one to three numerals that read back as the input's value. |
| ZimukuNumerals.OneDigitReads | libs/subliminal_patch/providers/zimuku.py:423-424 | A lone in-range digit is not '0', and its numeral reads back as its value. |
| ZimukuNumerals.TwoDigitsRead | libs/subliminal_patch/providers/zimuku.py:425-428 | Two digits without a leading zero spell a numeral that reads back as their value. |
| ZimukuNumerals.TwoDigits | libs/subliminal_patch/providers/zimuku.py:419 | An in-range input without a leading zero has at most two digits, worth ten times the first plus the second. |
| ZimukuNumerals.NoLeadingZeroBound | libs/subliminal_patch/providers/zimuku.py:419 | Without a leading zero, two digits are worth at least 10 and three at least 100. |
| ZimukuNumerals.SpellingReadsBack | libs/subliminal_patch/providers/zimuku.py:426-428 | The spelling 十, preceded by the tens digit unless it is 1 and followed by the units digit unless it is 0, reads back as its number. |
| ZimukuNumerals.SpellingParses | libs/subliminal_patch/providers/zimuku.py:423-428 | Every spelling of 1 to 99 reads back as the number spelled. |
| ZimukuNumerals.ParseCnCanonical | libs/subliminal_patch/providers/zimuku.py:423-428 | Every numeral the reader accepts is the one spelling of its value. |
| ZimukuNumerals.NumToCnRoundTrip | libs/subliminal_patch/providers/zimuku.py:417-428 | For every season 1 to 99, `num_to_cn(str(n))` succeeds and reads back as `n`. |
| ZimukuNumerals.ParseCnRoundTrip | libs/subliminal_patch/providers/zimuku.py:417-428 | Every accepted numeral is exactly what `num_to_cn` produces for its value. |
| ZimukuNumerals.NumToCnEdges | libs/subliminal_patch/providers/zimuku.py:419-427 | "05" and "007" fail with a missing key, "0" and "100" fail the assertion, and "10" is a bare 十. |
| ZimukuSubtitle.GetMatches | libs/subliminal_patch/providers/zimuku.py:63-83 | Non-year matches are the guessed ones for episodes and movies, and none otherwise. 'year' matches exactly when the years are equal (two missing years are equal), or the guess matched it, or the video is an episode without a year whose series, season and episode all matched. |
| ZimukuSubtitle.MatchesMonotone | libs/subliminal_patch/providers/zimuku.py:70-81 | Matching more properties in the release name never loses a match. |
| ZimukuSubtitle.YearlessEpisodeMatchesYear | libs/subliminal_patch/providers/zimuku.py:75-77 | For an episode without a year whose series, season and episode matched, the result is the guessed matches plus 'year', whatever the subtitle's year. |
| ZimukuSubtitle.QueryParams | libs/subliminal_patch/providers/zimuku.py:168-173 | The keyword starts the query. A truthy season follows as ".S" and `{:02d}` of the season, which reads back as the season. That part is exactly as long as the wider of 2 and `str(season)`, starts with '-' exactly when the season is negative, and is digits elsewhere: at least two characters. Otherwise a truthy year follows as a space and `{:4d}` of the year, which reads back as the year. That part is exactly as long as the wider of 4 and `str(year)`: `str(year)` at the end, spaces before it. Otherwise nothing follows. |
| ZimukuSubtitle.SeasonHidesYear | libs/subliminal_patch/providers/zimuku.py:170-173 | With a season, the year never reaches the query. |

## Left out

- Network, HTML and archive I/O. The search page request and parsing in `query`, the download, and the zip/rar container are left out. An archive is a list of members (name, bytes), in `namelist()` order.
- `guessit` and `guess_matches`. Their result is the parameter `guessed` of `GetMatches`. Only the video's kind and year are modelled, since those are all `get_matches` reads itself.
- `SUBTITLE_EXTENSIONS` is a parameter (`exts`), since it is defined outside the provider.
- Logging calls (`logger.debug`) change nothing and are not modelled.
- The module-level singletons `series_score` and `movie_score` (score.py:138-139) are left out. They read the application settings, which are not part of this model.
- The base-class `Score.from_config` (score.py:50-52) has no row of its own. It is `New(media, true, overrides)` unless the keyword arguments hold `cls`, or hold `self` or `load_profiles` (a `TypeError`, as in `Scoring.FromConfig`). It is unreachable, because both subclasses override it.
- `Score.__str__` is a display string only.
- Override values are integers. A configuration that supplies another type would make Python's sums fail or behave differently.
- Profiles: `load_profiles` as written always leaves the list empty. `Profile` keeps a name, a score and a check so that the profile-reading functions can be stated over any list.
- Float division: the `/ 100` of `get_scores` is exact `real` division, without floating-point rounding.
- `PyStr.Lower`: lower-cases ASCII letters only. Python's `str.lower` also lowers non-ASCII capitals, so the model differs from Python only on names that hold them. The only such capital whose lower case is a single ASCII letter is U+212A KELVIN SIGN, which becomes `k`. The extension list is a parameter here (`SUBTITLE_EXTENSIONS` is not part of this model). When no entry of that list contains a `k`, as `.srt`, `.ass` and `.ssa` do not, the Kelvin sign cannot make a name pass Python's filter where the model's rejects it. Other non-ASCII capitals lower to non-ASCII text, which no ASCII extension matches.
- `PyStr.IsDigits`: accepts ASCII digits only. Python's `isdigit` and `int` also accept other Unicode digits, which no season string holds.
- Paths follow POSIX `os.path`. The separator is '/', and a Windows host's '\\' is not modelled.
- `ZimukuArchive.SelectMember` ranks every member first and then takes the running maximum. Python scores and compares in one loop; the two orders give the same choice.
- `ZimukuArchive.Read`: when two members share a name, the container returns the last one. This follows zip's name index, and rar readers may differ.
- `ZimukuSubtitle.QueryParams`: the `episode` argument of `query` is never used there, so it is not a parameter.

## Findings

| source | as written | input that shows it | evidently intended | confidence | as-written member | corrected member |
|---|---|---|---|---|---|---|
| libs/subliminal_patch/providers/zimuku.py:399 | The scan for the longest Latin run starts from `result = [0, 1]`, a one-character window at the start of the stem. A run must be longer than one character to replace it. When every Latin run is a single letter, the first character of the stem is kept, even a CJK character. | `_extract_name("中a中.srt")` gives "中.srt". | "a.srt": the function's stated purpose is to filter Chinese characters out. Starting from an empty window `[0, 0]` lets any run win, so no CJK character survives (`ZimukuName.IntendedDropsCjk`). | not executed | ZimukuName.AsWrittenLeaksCjk (on ZimukuName.ExtractName) | ZimukuName.ExtractNameIntended, with ZimukuName.IntendedDropsCjk |
