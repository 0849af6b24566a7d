/** The weighted match-score table of bazarr/subtitles/tools/score.py.

    A `Score` holds a table from attribute name to points (`data`), the list of
    custom profiles and a flag recording whether that list has been loaded.
    Every Python method becomes a pure state-transition function. */
module Scoring {
  import opened Wrappers

  // ---------------------------------------------------------------------------
  // Tables: Python dicts from attribute name to points

  /** A Python `dict[str, int]`: `order` lists the keys in insertion order,
      `values` maps them to their points. */
  datatype Table = Table(order: seq<string>, values: map<string, int>)

  predicate Distinct(keys: seq<string>)
  {
    forall i, j | 0 <= i < j < |keys| :: keys[i] != keys[j]
  }

  /** The key list and the mapping describe the same keys, each once. */
  predicate TableOk(t: Table)
  {
    && Distinct(t.order)
    && (forall k | k in t.values :: k in t.order)
    && (forall i | 0 <= i < |t.order| :: t.order[i] in t.values)
  }

  const EmptyTable := Table([], map[])

  /** `d[k] = v`: an existing key keeps its place, a new one goes last. */
  function Put(t: Table, k: string, v: int): (r: Table)
    requires TableOk(t)
    ensures TableOk(r)
    ensures r.values == t.values[k := v]
    ensures k in t.values ==> r.order == t.order
    ensures k !in t.values ==> r.order == t.order + [k]
  {
    if k in t.values then Table(t.order, t.values[k := v])
    else Table(t.order + [k], t.values[k := v])
  }

  /** The one-entry dict `{k: v}`. */
  function Single(k: string, v: int): (t: Table)
    ensures TableOk(t)
  {
    Table([k], map[k := v])
  }

  /** `d.update(u)`, with `u` given by its keys in order and its mapping. */
  function PutAll(t: Table, keys: seq<string>, vals: map<string, int>): (r: Table)
    requires TableOk(t)
    requires forall i | 0 <= i < |keys| :: keys[i] in vals
    ensures TableOk(r)
    ensures forall k :: k in r.values <==> k in t.values || k in keys
    ensures forall k | k in keys :: r.values[k] == vals[k]
    ensures forall k | k in t.values && k !in keys :: r.values[k] == t.values[k]
    ensures t.order <= r.order
    ensures (forall i | 0 <= i < |keys| :: keys[i] in t.values) ==> r.order == t.order
    decreases |keys|
  {
    if |keys| == 0 then t
    else
      var t' := Put(t, keys[0], vals[keys[0]]);
      var r := PutAll(t', keys[1..], vals);
      assert forall k :: k in keys <==> k == keys[0] || k in keys[1..] by {
        HeadOrTail(keys);
      }
      r
  }

  /** An element of a non-empty list is its head or in its tail. */
  lemma HeadOrTail(keys: seq<string>)
    requires |keys| > 0
    ensures forall k :: k in keys <==> k == keys[0] || k in keys[1..]
  {
    assert keys == [keys[0]] + keys[1..];
  }

  /** `t.update(u)`: every key of `u` takes `u`'s value, every other key of
      `t` keeps its own, and no key is lost. */
  function Merge(t: Table, u: Table): (r: Table)
    requires TableOk(t) && TableOk(u)
    ensures TableOk(r)
    ensures forall k :: k in r.values <==> k in t.values || k in u.values
    ensures forall k | k in u.values :: r.values[k] == u.values[k]
    ensures forall k | k in t.values && k !in u.values :: r.values[k] == t.values[k]
  {
    PutAll(t, u.order, u.values)
  }

  // ---------------------------------------------------------------------------
  // Sums over a table

  /** The two entries that do not count toward the derived `hash` entry. */
  const Uncounted: set<string> := {"hash", "hearing_impaired"}

  /** The sum of `vals[k]` over the keys `k` of `keys` that are not in
      `excluded`. */
  function SumOver(keys: seq<string>, vals: map<string, int>, excluded: set<string>): int
    requires forall i | 0 <= i < |keys| :: keys[i] in vals
  {
    if |keys| == 0 then 0
    else
      var k := keys[|keys| - 1];
      SumOver(keys[..|keys| - 1], vals, excluded) + (if k in excluded then 0 else vals[k])
  }

  /** `Score._hash_score`: the sum of every entry except `hash` and
      `hearing_impaired`. */
  function HashScore(t: Table): int
    requires TableOk(t)
  {
    SumOver(t.order, t.values, Uncounted)
  }

  /** Values that differ only on excluded keys, or on keys outside the list,
      give the same sum. */
  lemma {:induction false} SumFrame(keys: seq<string>, v1: map<string, int>, v2: map<string, int>, excluded: set<string>)
    requires forall i | 0 <= i < |keys| :: keys[i] in v1 && keys[i] in v2
    requires forall i | 0 <= i < |keys| && keys[i] !in excluded :: v1[keys[i]] == v2[keys[i]]
    ensures SumOver(keys, v1, excluded) == SumOver(keys, v2, excluded)
  {
    if |keys| > 0 {
      SumFrame(keys[..|keys| - 1], v1, v2, excluded);
    }
  }

  /** Changing one counted entry that occurs once in the list moves the sum by
      the difference. */
  lemma {:induction false} SumPutExisting(keys: seq<string>, vals: map<string, int>, excluded: set<string>, k: string, v: int)
    requires forall i | 0 <= i < |keys| :: keys[i] in vals
    requires Distinct(keys) && k in keys && k !in excluded
    ensures k in vals
    ensures SumOver(keys, vals[k := v], excluded) == SumOver(keys, vals, excluded) - vals[k] + v
  {
    var n := |keys|;
    var init := keys[..n - 1];
    if keys[n - 1] == k {
      forall i | 0 <= i < n - 1
        ensures init[i] != k
      {
        assert keys[i] != keys[n - 1];
      }
      SumFrame(init, vals[k := v], vals, excluded);
    } else {
      assert k in init;
      SumPutExisting(init, vals, excluded, k, v);
    }
  }

  /** Removing `extra` from the excluded set adds its value once, when it
      occurs once in the list. */
  lemma {:induction false} SumInclude(keys: seq<string>, vals: map<string, int>, excluded: set<string>, extra: string)
    requires forall i | 0 <= i < |keys| :: keys[i] in vals
    requires Distinct(keys) && extra in keys && extra in excluded
    ensures extra in vals
    ensures SumOver(keys, vals, excluded - {extra}) == SumOver(keys, vals, excluded) + vals[extra]
  {
    var n := |keys|;
    var init := keys[..n - 1];
    if keys[n - 1] == extra {
      forall i | 0 <= i < n - 1
        ensures init[i] != extra
      {
        assert keys[i] != keys[n - 1];
      }
      SumSameOutside(init, vals, excluded, extra);
    } else {
      assert extra in init;
      SumInclude(init, vals, excluded, extra);
    }
  }

  /** Excluding a key that is not in the list changes nothing. */
  lemma {:induction false} SumSameOutside(keys: seq<string>, vals: map<string, int>, excluded: set<string>, extra: string)
    requires forall i | 0 <= i < |keys| :: keys[i] in vals
    requires extra !in keys
    ensures SumOver(keys, vals, excluded - {extra}) == SumOver(keys, vals, excluded)
  {
    if |keys| > 0 {
      assert extra !in keys[..|keys| - 1];
      SumSameOutside(keys[..|keys| - 1], vals, excluded, extra);
    }
  }

  // ---------------------------------------------------------------------------
  // Media types and their default tables

  datatype Media = Series | Movies

  /** The keys of a list of (name, points) pairs. */
  function Names(pairs: seq<(string, int)>): (r: seq<string>)
    ensures |r| == |pairs| && forall i | 0 <= i < |pairs| :: r[i] == pairs[i].0
  {
    seq(|pairs|, i requires 0 <= i < |pairs| => pairs[i].0)
  }

  /** A dict literal `{k1: v1, k2: v2, ...}` with distinct keys. */
  function FromPairs(pairs: seq<(string, int)>): (t: Table)
    requires Distinct(Names(pairs))
    ensures TableOk(t)
    ensures t.order == Names(pairs)
    ensures forall i | 0 <= i < |pairs| :: t.values[pairs[i].0] == pairs[i].1
  {
    if |pairs| == 0 then EmptyTable
    else
      var init := pairs[..|pairs| - 1];
      var last := pairs[|pairs| - 1];
      assert Names(init) == Names(pairs)[..|pairs| - 1];
      assert last.0 !in Names(init) by {
        forall i | 0 <= i < |init|
          ensures Names(init)[i] != last.0
        {
          assert Names(pairs)[i] != Names(pairs)[|pairs| - 1];
        }
      }
      Put(FromPairs(init), last.0, last.1)
  }

  /** `SeriesScore.defaults` and `MovieScore.defaults`, in declaration order:
      no key is declared twice, and `hash` comes first. */
  function DefaultPairs(m: Media): (r: seq<(string, int)>)
    ensures Distinct(Names(r))
    ensures |r| > 0 && r[0].0 == "hash"
  {
    match m
    case Series =>
      [("hash", 359), ("series", 180), ("year", 90), ("season", 30),
       ("episode", 30), ("release_group", 15), ("source", 7),
       ("audio_codec", 3), ("resolution", 2), ("video_codec", 2),
       ("hearing_impaired", 1), ("streaming_service", 0), ("edition", 0)]
    case Movies =>
      [("hash", 119), ("title", 60), ("year", 30), ("release_group", 15),
       ("source", 7), ("audio_codec", 3), ("resolution", 2),
       ("video_codec", 2), ("hearing_impaired", 1),
       ("streaming_service", 0), ("edition", 0)]
  }

  /** The default table of a media variant. */
  function DefaultTable(m: Media): (t: Table)
    ensures TableOk(t)
    ensures "hash" in t.values && "hearing_impaired" in t.values
  {
    var pairs := DefaultPairs(m);
    assert Distinct(Names(pairs));
    assert pairs[0].0 == "hash";
    assert pairs[if m == Series then 10 else 8].0 == "hearing_impaired";
    FromPairs(pairs)
  }

  /** The configuration section each variant reads. */
  function Section(m: Media): string
  {
    match m
    case Series => "series_scores"
    case Movies => "movie_scores"
  }

  // ---------------------------------------------------------------------------
  // Profiles and the score state

  /** A custom score profile: its name, its bonus points and its check over a
      subtitle of type `S`. */
  datatype Profile<!S> = Profile(name: string, score: int, check: S -> bool)

  /** A `Score` instance: the media variant (which fixes `defaults`), the
      table `data`, `_profiles` and `_profiles_loaded`. */
  datatype Score<!S> = Score(media: Media, data: Table, profiles: seq<Profile<S>>, loaded: bool)

  /** What every operation keeps: `data` is a proper table and still holds
      every default key (in particular `hash` and `hearing_impaired`). */
  predicate WellFormed<S>(s: Score<S>)
  {
    && TableOk(s.data)
    && forall k | k in DefaultTable(s.media).values :: k in s.data.values
  }

  /** The derived `hash` entry is the sum of the counted entries. */
  predicate HashConsistent<S>(s: Score<S>)
    requires WellFormed(s)
  {
    s.data.values["hash"] == HashScore(s.data)
  }

  datatype ConfigError =
    | MissingSection(section: string)   // KeyError on `kwargs[section]`
    | DuplicateArgument(name: string)   // TypeError: the keyword is already bound

  // ---------------------------------------------------------------------------
  // Operations

  /** `Score.load_profiles`: the profile source yields nothing, so the list is
      left empty; the flag is set. */
  function LoadProfiles<S>(s: Score<S>): (r: Score<S>)
    ensures r.profiles == [] && r.loaded
    ensures r.media == s.media && r.data == s.data
  {
    s.(profiles := [], loaded := true)
  }

  /** Writing the recomputed `hash` into a table that already has a `hash`
      entry leaves the other entries, and so the sum, unchanged: the result is
      consistent. */
  lemma RehashConsistent(t: Table)
    requires TableOk(t) && "hash" in t.values
    ensures HashScore(Put(t, "hash", HashScore(t))) == HashScore(t)
  {
    var r := Put(t, "hash", HashScore(t));
    assert r.order == t.order;
    SumFrame(t.order, r.values, t.values, Uncounted);
  }

  /** The table `Score.__init__` builds: the defaults, updated with the
      overrides (unknown keys included), then `hash` set to the sum of every
      counted entry, whatever the overrides said about it. */
  function ConfiguredTable(d: Table, overrides: Table): (r: Table)
    requires TableOk(d) && TableOk(overrides) && "hash" in d.values
    ensures TableOk(r)
    ensures "hash" in r.values && r.values["hash"] == HashScore(r)
    ensures r.values["hash"] == HashScore(Merge(d, overrides))
    ensures forall k :: k in r.values <==> k in d.values || k in overrides.values
    ensures forall k | k in overrides.values && k != "hash" :: r.values[k] == overrides.values[k]
    ensures forall k | k in d.values && k !in overrides.values && k != "hash" :: r.values[k] == d.values[k]
  {
    var merged := Merge(d, overrides);
    RehashConsistent(merged);
    Put(merged, "hash", HashScore(merged))
  }

  /** `Score.__init__(load_profiles, **overrides)`: the configured table, no
      profiles, and the profiles loaded at once when asked. */
  function New<S>(media: Media, loadProfiles: bool, overrides: Table): (r: Score<S>)
    requires TableOk(overrides)
    ensures WellFormed(r) && HashConsistent(r)
    ensures r.media == media && r.profiles == [] && r.loaded == loadProfiles
    ensures r.data == ConfiguredTable(DefaultTable(media), overrides)
  {
    var s := Score(media, ConfiguredTable(DefaultTable(media), overrides), [], false);
    if loadProfiles then LoadProfiles(s) else s
  }

  /** The parameters `Score.__init__(self, load_profiles=False, **kwargs)`
      binds by position when `from_config` calls `cls(True, **section)`: a
      section key naming one of them is a keyword bound twice. */
  const InitParams: set<string> := {"self", "load_profiles"}

  /** The first of `keys`, in order, that is in `params`: the keyword Python
      reports when it binds a dict's keys as keyword arguments. */
  function FirstNamed(keys: seq<string>, params: set<string>): (r: Option<string>)
    ensures r.None? <==> forall i | 0 <= i < |keys| :: keys[i] !in params
    ensures r.Some? ==> exists i | 0 <= i < |keys| ::
      && keys[i] == r.value && r.value in params
      && forall j | 0 <= j < i :: keys[j] !in params
  {
    if |keys| == 0 then None
    else if keys[0] in params then Some(keys[0])
    else
      var r := FirstNamed(keys[1..], params);
      assert r.Some? ==> exists i | 0 <= i < |keys| ::
        && keys[i] == r.value && r.value in params
        && forall j | 0 <= j < i :: keys[j] !in params
      by {
        if r.Some? {
          var i :| 0 <= i < |keys[1..]| && keys[1..][i] == r.value && r.value in params
            && forall j | 0 <= j < i :: keys[1..][j] !in params;
          assert keys[i + 1] == r.value;
          forall j | 0 <= j < i + 1 ensures keys[j] !in params {
            if j > 0 {
              assert keys[j] == keys[1..][j - 1];
            }
          }
        }
      }
      r
  }

  /** `SeriesScore.from_config(**settings)` / `MovieScore.from_config`:
      construct with profiles loaded from the variant's own section. Binding
      the settings as keywords raises when one of them is named `cls` (the
      classmethod's own parameter); reading the section raises when it is
      missing; binding the section as keywords raises when it names a
      parameter of `__init__`. */
  function FromConfig<S>(media: Media, config: map<string, Table>): (r: Result<Score<S>, ConfigError>)
    requires forall sec | sec in config :: TableOk(config[sec])
    ensures r.Failure? <==>
      || "cls" in config
      || Section(media) !in config
      || "self" in config[Section(media)].values
      || "load_profiles" in config[Section(media)].values
    ensures "cls" in config ==> r == Failure(DuplicateArgument("cls"))
    ensures "cls" !in config && Section(media) !in config ==> r == Failure(MissingSection(Section(media)))
    ensures "cls" !in config && Section(media) in config && r.Failure? ==>
      && r.error.DuplicateArgument?
      && r.error.name in InitParams
      && r.error.name in config[Section(media)].values
    ensures r.Success? ==> r.value.loaded && WellFormed(r.value) && HashConsistent(r.value)
    ensures r.Success? ==> r.value.data == ConfiguredTable(DefaultTable(media), config[Section(media)])
    ensures r.Success? ==> r.value.media == media && r.value.profiles == []
    ensures r.Success? ==> r.value == New(media, true, config[Section(media)])
  {
    var sec := Section(media);
    if "cls" in config then Failure(DuplicateArgument("cls"))
    else if sec !in config then Failure(MissingSection(sec))
    else
      InitCollision(config[sec]);
      match FirstNamed(config[sec].order, InitParams)
      case Some(name) => Failure(DuplicateArgument(name))
      case None => Success(New(media, true, config[sec]))
  }

  /** A section collides with `__init__`'s parameters exactly when it has a
      key `self` or `load_profiles`, and the keyword reported is one of its
      keys. */
  lemma InitCollision(t: Table)
    requires TableOk(t)
    ensures var f := FirstNamed(t.order, InitParams);
      && (f.None? <==> "self" !in t.values && "load_profiles" !in t.values)
      && (f.Some? ==> f.value in InitParams && f.value in t.values)
  {
    var f := FirstNamed(t.order, InitParams);
    if f.Some? {
      var i :| 0 <= i < |t.order| && t.order[i] == f.value && f.value in InitParams;
      assert t.order[i] in t.values;
    }
    if "self" in t.values {
      assert "self" in t.order;
      var i :| 0 <= i < |t.order| && t.order[i] == "self";
      assert t.order[i] in InitParams;
    }
    if "load_profiles" in t.values {
      assert "load_profiles" in t.order;
      var i :| 0 <= i < |t.order| && t.order[i] == "load_profiles";
      assert t.order[i] in InitParams;
    }
  }

  /** `Score.reset`: `data.update(defaults)`. Every default key gets its
      default back, `hash` included and not recomputed; other keys stay. */
  function Reset<S>(s: Score<S>): (r: Score<S>)
    requires WellFormed(s)
    ensures WellFormed(r)
    ensures r.media == s.media && r.profiles == s.profiles && r.loaded == s.loaded
    ensures forall k :: k in r.data.values <==> k in s.data.values
    ensures forall k | k in DefaultTable(s.media).values :: r.data.values[k] == DefaultTable(s.media).values[k]
    ensures forall k | k in s.data.values && k !in DefaultTable(s.media).values ::
      r.data.values[k] == s.data.values[k]
  {
    s.(data := Merge(s.data, DefaultTable(s.media)))
  }

  /** `Score.update(**kwargs)`: overwrite (or add) exactly the given keys;
      `hash` is not recomputed. */
  function UpdateTable<S>(s: Score<S>, overrides: Table): (r: Score<S>)
    requires WellFormed(s) && TableOk(overrides)
    ensures WellFormed(r)
    ensures r.media == s.media && r.profiles == s.profiles && r.loaded == s.loaded
    ensures forall k :: k in r.data.values <==> k in s.data.values || k in overrides.values
    ensures forall k | k in overrides.values :: r.data.values[k] == overrides.values[k]
    ensures forall k | k in s.data.values && k !in overrides.values :: r.data.values[k] == s.data.values[k]
  {
    s.(data := Merge(s.data, overrides))
  }

  /** `SeriesScore.update(**settings)` / `MovieScore.update`: the same,
      reading only the variant's own section. Binding the settings as
      keywords raises when one of them is named `self`; a missing section
      raises. */
  function Update<S>(s: Score<S>, config: map<string, Table>): (r: Result<Score<S>, ConfigError>)
    requires WellFormed(s)
    requires forall sec | sec in config :: TableOk(config[sec])
    ensures r.Failure? <==> "self" in config || Section(s.media) !in config
    ensures "self" in config ==> r == Failure(DuplicateArgument("self"))
    ensures "self" !in config && Section(s.media) !in config ==> r == Failure(MissingSection(Section(s.media)))
    ensures r.Success? ==> WellFormed(r.value) && r.value.profiles == s.profiles
    ensures r.Success? ==> r.value == UpdateTable(s, config[Section(s.media)])
  {
    var sec := Section(s.media);
    if "self" in config then Failure(DuplicateArgument("self"))
    else if sec !in config then Failure(MissingSection(sec))
    else Success(UpdateTable(s, config[sec]))
  }

  /** Runs every profile's check on `subtitle` and adds the names of those
      that hold to `matches`. */
  function AddMatching<S>(profiles: seq<Profile<S>>, subtitle: S, matches: set<string>): (r: set<string>)
    ensures forall n :: n in r <==>
      n in matches || exists i | 0 <= i < |profiles| :: profiles[i].check(subtitle) && profiles[i].name == n
  {
    if |profiles| == 0 then matches
    else
      var p := profiles[|profiles| - 1];
      var rest := AddMatching(profiles[..|profiles| - 1], subtitle, matches);
      if p.check(subtitle) then rest + {p.name} else rest
  }

  /** `Score.check_custom_profiles`: load the profiles if needed, then add the
      name of every profile whose check holds. The table is left alone. */
  function CheckCustomProfiles<S>(s: Score<S>, subtitle: S, matches: set<string>): (r: (Score<S>, set<string>))
    ensures r.0.loaded && r.0.media == s.media && r.0.data == s.data
    ensures s.loaded ==> r.0 == s
    ensures !s.loaded ==> r.0.profiles == []
    ensures matches <= r.1
    ensures forall n :: n in r.1 <==>
      n in matches || exists i | 0 <= i < |r.0.profiles| :: r.0.profiles[i].check(subtitle) && r.0.profiles[i].name == n
  {
    var loaded := if s.loaded then s else LoadProfiles(s);
    (loaded, AddMatching(loaded.profiles, subtitle, matches))
  }

  /** Profile `i` is the last one named `n`. */
  predicate LastNamed<S>(profiles: seq<Profile<S>>, n: string, i: int)
  {
    && 0 <= i < |profiles| && profiles[i].name == n
    && forall j | i < j < |profiles| :: profiles[j].name != n
  }

  /** `Score.custom_profile_scores`: profile name to profile score; when two
      profiles share a name the later one wins. */
  function CustomProfileScores<S>(profiles: seq<Profile<S>>): (r: map<string, int>)
    ensures forall n :: n in r <==> exists i | 0 <= i < |profiles| :: profiles[i].name == n
    ensures forall n | n in r :: exists i :: LastNamed(profiles, n, i) && r[n] == profiles[i].score
  {
    if |profiles| == 0 then map[]
    else
      var k := |profiles|;
      var p := profiles[k - 1];
      var rest := CustomProfileScores(profiles[..k - 1]);
      assert LastNamed(profiles, p.name, k - 1);
      assert forall n, i | n != p.name && LastNamed(profiles[..k - 1], n, i) :: LastNamed(profiles, n, i);
      rest[p.name := p.score]
  }

  /** `Score.scores`: the profile scores with the table laid over them. */
  function Scores<S>(s: Score<S>): (r: map<string, int>)
    ensures forall k :: k in r <==>
      k in s.data.values || exists i | 0 <= i < |s.profiles| :: s.profiles[i].name == k
    ensures forall k | k in s.data.values :: r[k] == s.data.values[k]
    ensures forall k | k in r && k !in s.data.values ::
      exists i :: LastNamed(s.profiles, k, i) && r[k] == s.profiles[i].score
  {
    CustomProfileScores(s.profiles) + s.data.values
  }

  /** `sum(item.score for item in profiles if item.score)`. */
  function ProfileBonus<S>(profiles: seq<Profile<S>>): int
  {
    if |profiles| == 0 then 0
    else
      var p := profiles[|profiles| - 1];
      ProfileBonus(profiles[..|profiles| - 1]) + (if p.score != 0 then p.score else 0)
  }

  /** `Score.max_score`: `hash + hearing_impaired` plus the profile bonuses.
      When `hash` is consistent this is the worth of matching every attribute
      at once (all entries but `hash`) plus every profile. */
  function MaxScore<S>(s: Score<S>): (r: int)
    requires WellFormed(s)
    ensures HashConsistent(s) ==>
      r == SumOver(s.data.order, s.data.values, {"hash"}) + ProfileBonus(s.profiles)
  {
    SumInclude(s.data.order, s.data.values, Uncounted, "hearing_impaired");
    assert Uncounted - {"hearing_impaired"} == {"hash"};
    s.data.values["hash"] + s.data.values["hearing_impaired"] + ProfileBonus(s.profiles)
  }

  /** `Score.get_scores(min_percent, special)`: the threshold
      `max_score * p / 100` where `p` is `special` unless it is `None` or 0,
      the maximum itself, and the names that carry a score. */
  function GetScores<S>(s: Score<S>, minPercent: int, special: Option<int>): (r: (real, int, set<string>))
    requires WellFormed(s)
    ensures r.1 == MaxScore(s)
    ensures special.Some? && special.value != 0 ==> r.0 * 100.0 == (r.1 * special.value) as real
    ensures (special.None? || special.value == 0) ==> r.0 * 100.0 == (r.1 * minPercent) as real
    ensures forall k :: k in r.2 <==>
      k in s.data.values || exists i | 0 <= i < |s.profiles| :: s.profiles[i].name == k
  {
    var p := if special.Some? && special.value != 0 then special.value else minPercent;
    var max := MaxScore(s);
    ((max * p) as real / 100.0, max, Scores(s).Keys)
  }

  // ---------------------------------------------------------------------------
  // Properties

  /** `PutAll` of a list with one more key at the end is one more `Put`. */
  lemma {:induction false} PutAllSnoc(t: Table, keys: seq<string>, k: string, vals: map<string, int>)
    requires TableOk(t)
    requires forall i | 0 <= i < |keys| :: keys[i] in vals
    requires k in vals
    ensures PutAll(t, keys + [k], vals) == Put(PutAll(t, keys, vals), k, vals[k])
    decreases |keys|
  {
    if |keys| == 0 {
      assert keys + [k] == [k];
    } else {
      assert (keys + [k])[1..] == keys[1..] + [k];
      PutAllSnoc(Put(t, keys[0], vals[keys[0]]), keys[1..], k, vals);
    }
  }

  /** `PutAll` only reads the values of the keys it is given. */
  lemma {:induction false} PutAllFrame(t: Table, keys: seq<string>, v1: map<string, int>, v2: map<string, int>)
    requires TableOk(t)
    requires forall i | 0 <= i < |keys| :: keys[i] in v1 && keys[i] in v2 && v1[keys[i]] == v2[keys[i]]
    ensures PutAll(t, keys, v1) == PutAll(t, keys, v2)
    decreases |keys|
  {
    if |keys| > 0 {
      PutAllFrame(Put(t, keys[0], v1[keys[0]]), keys[1..], v1, v2);
    }
  }

  /** Appending a fresh counted key to the list adds its value to the sum. */
  lemma SumAppendNew(keys: seq<string>, vals: map<string, int>, excluded: set<string>, k: string, v: int)
    requires forall i | 0 <= i < |keys| :: keys[i] in vals
    requires k !in keys && k !in excluded
    ensures SumOver(keys + [k], vals[k := v], excluded) == SumOver(keys, vals, excluded) + v
  {
    var ks := keys + [k];
    assert ks[..|ks| - 1] == keys;
    SumFrame(keys, vals[k := v], vals, excluded);
  }

  /** Adding a key the table lacks adds its value to every sum that counts it. */
  lemma SumPutNew(t: Table, k: string, v: int)
    requires TableOk(t) && k !in t.values && k !in Uncounted
    ensures HashScore(Put(t, k, v)) == HashScore(t) + v
  {
    var r := Put(t, k, v);
    assert r.order == t.order + [k] && r.values == t.values[k := v];
    assert k !in t.order;
    SumAppendNew(t.order, t.values, Uncounted, k, v);
  }

  /** Updating with a dict that has one more key at the end is one more
      `d[k] = v` after the update. */
  lemma MergePutNew(t: Table, u: Table, k: string, v: int)
    requires TableOk(t) && TableOk(u) && k !in u.values
    ensures Merge(t, Put(u, k, v)) == Put(Merge(t, u), k, v)
  {
    var u2 := Put(u, k, v);
    assert u2.order == u.order + [k];
    assert forall i | 0 <= i < |u.order| :: u.order[i] != k;
    PutAllSnoc(t, u.order, k, u2.values);
    PutAllFrame(t, u.order, u2.values, u.values);
  }

  /** Unknown override keys are kept and counted: adding a key that is
      neither a default nor already overridden (nor `hash` or
      `hearing_impaired`) raises the derived `hash` by exactly its value. */
  lemma UnknownOverrideCounted(d: Table, overrides: Table, k: string, v: int)
    requires TableOk(d) && "hash" in d.values && TableOk(overrides)
    requires k !in d.values && k !in overrides.values && k !in Uncounted
    ensures var with := ConfiguredTable(d, Put(overrides, k, v));
      var without := ConfiguredTable(d, overrides);
      k in with.values && with.values[k] == v && with.values["hash"] == without.values["hash"] + v
  {
    MergePutNew(d, overrides, k, v);
    var m1 := Merge(d, overrides);
    assert k !in m1.values;
    SumPutNew(m1, k, v);
  }

  /** Two maps with the same keys and the same value at each key are equal. */
  lemma MapsEqual(a: map<string, int>, b: map<string, int>)
    requires forall k :: k in a <==> k in b
    requires forall k | k in a :: a[k] == b[k]
    ensures a == b
  {
  }

  /** Updating with the same dict twice is updating once. */
  lemma MergeIdempotent(t: Table, u: Table)
    requires TableOk(t) && TableOk(u)
    ensures Merge(Merge(t, u), u) == Merge(t, u)
  {
    var m := Merge(t, u);
    var mm := Merge(m, u);
    assert mm.order == m.order by {
      assert forall i | 0 <= i < |u.order| :: u.order[i] in m.values;
    }
    MapsEqual(mm.values, m.values);
  }

  /** `reset` twice is `reset` once. */
  lemma ResetIdempotent<S>(s: Score<S>)
    requires WellFormed(s)
    ensures Reset(Reset(s)) == Reset(s)
  {
    MergeIdempotent(s.data, DefaultTable(s.media));
  }

  /** Updating with a one-entry dict is a single `d[k] = v`. */
  lemma MergeSingle(t: Table, k: string, v: int)
    requires TableOk(t)
    ensures Merge(t, Single(k, v)) == Put(t, k, v)
  {
    var u := Single(k, v);
    assert u.order == [k] && u.values[k] == v;
    assert [k][1..] == [];
    assert PutAll(t, [k], u.values) == PutAll(Put(t, k, v), [], u.values);
  }

  /** `update` leaves `hash` stale: changing one counted entry of a
      consistent table makes it inconsistent. */
  lemma UpdateLeavesHashStale<S>(s: Score<S>, k: string, v: int)
    requires WellFormed(s) && HashConsistent(s)
    requires k in s.data.values && k !in Uncounted && v != s.data.values[k]
    ensures var r := UpdateTable(s, Single(k, v));
      WellFormed(r) && !HashConsistent(r)
  {
    MergeSingle(s.data, k, v);
    var t := Put(s.data, k, v);
    SumPutExisting(s.data.order, s.data.values, Uncounted, k, v);
    assert t.values["hash"] == s.data.values["hash"];
    assert HashScore(t) != t.values["hash"];
  }

  /** A profile appended to the list raises `max_score` by its score. */
  lemma ProfileRaisesMax<S>(s: Score<S>, p: Profile<S>)
    requires WellFormed(s)
    ensures MaxScore(s.(profiles := s.profiles + [p])) == MaxScore(s) + p.score
  {
    assert (s.profiles + [p])[..|s.profiles|] == s.profiles;
  }

  /** The sum over a list of pairs taken directly. */
  function PairSum(pairs: seq<(string, int)>, excluded: set<string>): int
  {
    if |pairs| == 0 then 0
    else
      var last := pairs[|pairs| - 1];
      PairSum(pairs[..|pairs| - 1], excluded) + (if last.0 in excluded then 0 else last.1)
  }

  lemma {:induction false} SumOverNames(pairs: seq<(string, int)>, vals: map<string, int>, excluded: set<string>)
    requires forall i | 0 <= i < |pairs| :: pairs[i].0 in vals && vals[pairs[i].0] == pairs[i].1
    ensures SumOver(Names(pairs), vals, excluded) == PairSum(pairs, excluded)
  {
    if |pairs| > 0 {
      assert Names(pairs)[..|pairs| - 1] == Names(pairs[..|pairs| - 1]);
      SumOverNames(pairs[..|pairs| - 1], vals, excluded);
    }
  }

  lemma PairSumStep(pairs: seq<(string, int)>, n: nat, excluded: set<string>)
    requires n < |pairs|
    ensures PairSum(pairs[..n + 1], excluded) ==
      PairSum(pairs[..n], excluded) + (if pairs[n].0 in excluded then 0 else pairs[n].1)
  {
    assert pairs[..n + 1][..n] == pairs[..n];
  }

  /** 180 + 90 + 30 + 30 + 15 + 7 + 3 + 2 + 2 + 0 + 0 = 359. */
  lemma SeriesDefaultSum()
    ensures PairSum(DefaultPairs(Series), Uncounted) == 359
  {
    var p := DefaultPairs(Series);
    assert p[..0] == [];
    PairSumStep(p, 0, Uncounted);
    PairSumStep(p, 1, Uncounted);
    PairSumStep(p, 2, Uncounted);
    PairSumStep(p, 3, Uncounted);
    PairSumStep(p, 4, Uncounted);
    PairSumStep(p, 5, Uncounted);
    PairSumStep(p, 6, Uncounted);
    PairSumStep(p, 7, Uncounted);
    PairSumStep(p, 8, Uncounted);
    PairSumStep(p, 9, Uncounted);
    PairSumStep(p, 10, Uncounted);
    PairSumStep(p, 11, Uncounted);
    PairSumStep(p, 12, Uncounted);
    assert p[..13] == p;
  }

  /** 60 + 30 + 15 + 7 + 3 + 2 + 2 + 0 + 0 = 119. */
  lemma MovieDefaultSum()
    ensures PairSum(DefaultPairs(Movies), Uncounted) == 119
  {
    var p := DefaultPairs(Movies);
    assert p[..0] == [];
    PairSumStep(p, 0, Uncounted);
    PairSumStep(p, 1, Uncounted);
    PairSumStep(p, 2, Uncounted);
    PairSumStep(p, 3, Uncounted);
    PairSumStep(p, 4, Uncounted);
    PairSumStep(p, 5, Uncounted);
    PairSumStep(p, 6, Uncounted);
    PairSumStep(p, 7, Uncounted);
    PairSumStep(p, 8, Uncounted);
    PairSumStep(p, 9, Uncounted);
    PairSumStep(p, 10, Uncounted);
    assert p[..11] == p;
  }

  /** The default tables are self-consistent: their `hash` constant is the
      sum of their counted entries. */
  lemma DefaultHash(m: Media)
    ensures DefaultTable(m).values["hash"] == HashScore(DefaultTable(m))
    ensures DefaultTable(m).values["hash"] == if m == Series then 359 else 119
    ensures DefaultTable(m).values["hearing_impaired"] == 1
  {
    var pairs := DefaultPairs(m);
    var d := DefaultTable(m);
    assert d == FromPairs(pairs);
    SumOverNames(pairs, d.values, Uncounted);
    assert pairs[0] == ("hash", if m == Series then 359 else 119);
    assert pairs[if m == Series then 10 else 8] == ("hearing_impaired", 1);
    if m == Series {
      SeriesDefaultSum();
    } else {
      MovieDefaultSum();
    }
  }

  /** Configuring a consistent table with no overrides gives it back. */
  lemma ConfiguredWithoutOverrides(d: Table)
    requires TableOk(d) && "hash" in d.values && d.values["hash"] == HashScore(d)
    ensures ConfiguredTable(d, EmptyTable) == d
  {
    assert Merge(d, EmptyTable) == d;
    assert d.values["hash" := HashScore(d)] == d.values;
  }

  /** With no overrides the table is the default table itself: `hash` is
      359 and `max_score` 360 for series, 119 and 120 for movies. */
  lemma DefaultsSelfConsistent<S>(media: Media, loadProfiles: bool)
    ensures New<S>(media, loadProfiles, EmptyTable).data == DefaultTable(media)
    ensures New<S>(media, loadProfiles, EmptyTable).data.values["hash"] == if media == Series then 359 else 119
    ensures MaxScore(New<S>(media, loadProfiles, EmptyTable)) == if media == Series then 360 else 120
  {
    DefaultHash(media);
    ConfiguredWithoutOverrides(DefaultTable(media));
  }

  /** A series table with no overrides and no profiles accepts at 90 percent
      from 324 points on. */
  lemma SeriesThresholdAtNinety<S>()
    ensures GetScores(New<S>(Series, true, EmptyTable), 90, None).0 == 324.0
    ensures GetScores(New<S>(Series, true, EmptyTable), 90, Some(0)).0 == 324.0
  {
    DefaultsSelfConsistent<S>(Series, true);
  }

  /** Dropping position `j` of a repetition-free key list removes exactly
      that key's share of the sum. */
  lemma {:induction false} SumRemove(keys: seq<string>, vals: map<string, int>, excluded: set<string>, j: nat)
    requires forall i | 0 <= i < |keys| :: keys[i] in vals
    requires j < |keys|
    ensures SumOver(keys, vals, excluded) ==
      SumOver(keys[..j] + keys[j + 1..], vals, excluded) + (if keys[j] in excluded then 0 else vals[keys[j]])
  {
    var n := |keys|;
    if j == n - 1 {
      assert keys[..j] + keys[j + 1..] == keys[..n - 1];
    } else {
      var init := keys[..n - 1];
      SumRemove(init, vals, excluded, j);
      var rest := keys[..j] + keys[j + 1..];
      assert rest[..|rest| - 1] == init[..j] + init[j + 1..];
      assert rest[|rest| - 1] == keys[n - 1];
    }
  }

  /** Dropping one position of a repetition-free list keeps it
      repetition-free and removes exactly the key at that position. */
  lemma RemoveAt(k: seq<string>, j: nat)
    requires Distinct(k) && j < |k|
    ensures Distinct(k[..j] + k[j + 1..])
    ensures forall y :: y in k[..j] + k[j + 1..] <==> y in k && y != k[j]
  {
    var r := k[..j] + k[j + 1..];
    forall a, b | 0 <= a < b < |r|
      ensures r[a] != r[b]
    {
      var oa := if a < j then a else a + 1;
      var ob := if b < j then b else b + 1;
      assert r[a] == k[oa] && r[b] == k[ob] && oa < ob;
    }
    forall y
      ensures y in r <==> y in k && y != k[j]
    {
      if y in r {
        var i :| 0 <= i < |r| && r[i] == y;
        var o := if i < j then i else i + 1;
        assert k[o] == y && o != j;
      }
      if y in k && y != k[j] {
        var i :| 0 <= i < |k| && k[i] == y;
        if i < j {
          assert r[i] == y;
        } else {
          assert r[i - 1] == y;
        }
      }
    }
  }

  lemma FirstIsMember(s: seq<string>)
    requires |s| > 0
    ensures s[0] in s
  {
  }

  /** Sums over two repetition-free lists of the same keys agree: the order
      a dict was filled in does not matter. */
  lemma {:induction false} SumPermutation(k1: seq<string>, k2: seq<string>, vals: map<string, int>, excluded: set<string>)
    requires forall i | 0 <= i < |k1| :: k1[i] in vals
    requires Distinct(k1) && Distinct(k2)
    requires forall x :: x in k1 <==> x in k2
    ensures forall i | 0 <= i < |k2| :: k2[i] in vals
    ensures SumOver(k1, vals, excluded) == SumOver(k2, vals, excluded)
    decreases |k1|
  {
    assert forall i | 0 <= i < |k2| :: k2[i] in vals by {
      forall i | 0 <= i < |k2|
        ensures k2[i] in vals
      {
        assert k2[i] in k1;
      }
    }
    if |k1| == 0 {
      if |k2| > 0 {
        FirstIsMember(k2);
        assert false;
      }
    } else {
      var n := |k1|;
      var x := k1[n - 1];
      assert x in k2;
      var j :| 0 <= j < |k2| && k2[j] == x;
      SumRemove(k2, vals, excluded, j);
      RemoveAt(k1, n - 1);
      RemoveAt(k2, j);
      var k1r, k2r := k1[..n - 1], k2[..j] + k2[j + 1..];
      assert k1[..n - 1] + k1[n..] == k1r;
      forall y
        ensures y in k1r <==> y in k2r
      {
        assert y in k1 <==> y in k2;
      }
      SumPermutation(k1r, k2r, vals, excluded);
    }
  }

  /** `_hash_score` depends only on the table's contents, not on the order
      its keys were inserted in. */
  lemma HashScoreOrderFree(t1: Table, t2: Table)
    requires TableOk(t1) && TableOk(t2) && t1.values == t2.values
    ensures HashScore(t1) == HashScore(t2)
  {
    SumPermutation(t1.order, t2.order, t1.values, Uncounted);
  }

  /** Updating a table with a consistent table that has every one of its
      keys yields that consistent table's contents. */
  lemma MergeCovered(t: Table, u: Table)
    requires TableOk(t) && TableOk(u)
    requires forall k | k in t.values :: k in u.values
    requires "hash" in u.values && u.values["hash"] == HashScore(u)
    ensures Merge(t, u).values == u.values
    ensures Merge(t, u).values["hash"] == HashScore(Merge(t, u))
  {
    MergeValuesCovered(t, u);
    HashScoreOrderFree(Merge(t, u), u);
  }

  /** Updating a table with one that has all of its keys leaves exactly the
      second table's entries. */
  lemma MergeValuesCovered(t: Table, u: Table)
    requires TableOk(t) && TableOk(u)
    requires forall k | k in t.values :: k in u.values
    ensures Merge(t, u).values == u.values
  {
    var m := Merge(t, u);
    assert m.values.Keys == u.values.Keys;
  }

  /** On a table that holds only default keys, `reset` restores the
      default table's contents, and with them a consistent `hash`. */
  lemma ResetRestoresDefaults<S>(s: Score<S>)
    requires WellFormed(s)
    requires forall k | k in s.data.values :: k in DefaultTable(s.media).values
    ensures Reset(s).data.values == DefaultTable(s.media).values
    ensures HashConsistent(Reset(s))
  {
    DefaultHash(s.media);
    MergeCovered(s.data, DefaultTable(s.media));
  }

  /** When a table already agrees with the defaults on every counted
      default key, updating it with the defaults changes only `hash`, so the
      sum of the counted entries stays what it was. */
  lemma ResetKeepsSum(t: Table, d: Table)
    requires TableOk(t) && TableOk(d)
    requires forall k | k in d.values :: k in t.values
    requires forall k | k in d.values && k != "hash" :: t.values[k] == d.values[k]
    ensures Merge(t, d).order == t.order
    ensures HashScore(Merge(t, d)) == HashScore(t)
  {
    var m := Merge(t, d);
    SumFrame(t.order, m.values, t.values, Uncounted);
  }

  /** `reset` writes the `hash` constant back rather than recomputing it, so
      an unknown key worth something leaves it stale: a table built with one
      unknown key `k` worth `v` has `hash` raised by `v`; after `reset` the
      `hash` is the default constant again while the counted entries still
      include `v`. */
  lemma ResetLeavesHashStale<S>(media: Media, k: string, v: int)
    requires k !in DefaultTable(media).values && k !in Uncounted && v != 0
    ensures var s := New<S>(media, false, Single(k, v));
      var h := DefaultTable(media).values["hash"];
      && s.data.values["hash"] == h + v
      && Reset(s).data.values["hash"] == h
      && !HashConsistent(Reset(s))
  {
    var d := DefaultTable(media);
    DefaultHash(media);
    UnknownKeyRaisesHash(d, k, v);
    ResetKeepsUnknownKey(d, k, v);
  }

  /** A consistent table configured with one unknown key has `hash` raised
      by its value. */
  lemma UnknownKeyRaisesHash(d: Table, k: string, v: int)
    requires TableOk(d) && "hash" in d.values && d.values["hash"] == HashScore(d)
    requires k !in d.values && k !in Uncounted
    ensures ConfiguredTable(d, Single(k, v)).values["hash"] == d.values["hash"] + v
  {
    ConfiguredWithoutOverrides(d);
    assert Put(EmptyTable, k, v) == Single(k, v);
    UnknownOverrideCounted(d, EmptyTable, k, v);
  }

  /** Resetting that table writes the default `hash` back while the counted
      entries keep their sum. */
  lemma ResetKeepsUnknownKey(d: Table, k: string, v: int)
    requires TableOk(d) && "hash" in d.values && k !in d.values && k != "hash"
    ensures var t := ConfiguredTable(d, Single(k, v));
      && Merge(t, d).values["hash"] == d.values["hash"]
      && HashScore(Merge(t, d)) == t.values["hash"]
  {
    var o := Single(k, v);
    var t := ConfiguredTable(d, o);
    assert HashScore(Merge(t, d)) == HashScore(t) by {
      DefaultsKept(d, o);
      ResetKeepsSum(t, d);
    }
  }

  /** Configuring with overrides that touch no default key but `hash` keeps
      every default entry but `hash`. */
  lemma DefaultsKept(d: Table, o: Table)
    requires TableOk(d) && TableOk(o) && "hash" in d.values
    requires forall j | j in d.values && j != "hash" :: j !in o.values
    ensures var t := ConfiguredTable(d, o);
      && (forall j | j in d.values :: j in t.values)
      && (forall j | j in d.values && j != "hash" :: t.values[j] == d.values[j])
  {
  }
}
