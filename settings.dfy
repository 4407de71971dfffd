/**
 * The settings store: the built-in defaults, and how the page builds its
 * settings record at start-up from the local store and the query string
 * (`g_settings_defaults` and `load_settings` in www/default.js).
 */
module SettingsStore {
  import opened Wrappers
  import opened JsString
  import opened JsValue

  /** The keys of `g_settings_defaults`, in declaration order. */
  const DefaultKeys: seq<string> := [
    "pricing_unit", "cost_duration", "region", "reserved_term",
    "min_memory", "min_vcpus", "min_memory_per_vcpu", "min_storage",
    "selected", "compare_on", "measuring_units_on", "price_modifier"
  ]

  /** `g_settings_defaults[key]`: `undefined` exactly for the keys that have no default. */
  function DefaultOf(key: string): (v: Value)
    ensures v.Undefined? <==> key !in DefaultKeys
    ensures !v.Null? && !v.Ids?
  {
    if key == "pricing_unit" then Str("instance")
    else if key == "cost_duration" then Str("hourly")
    else if key == "region" then Str("us-east-1")
    else if key == "reserved_term" then Str("yrTerm1Standard.noUpfront")
    else if key == "min_memory" then Num(0.0)
    else if key == "min_vcpus" then Num(0.0)
    else if key == "min_memory_per_vcpu" then Num(0.0)
    else if key == "min_storage" then Num(0.0)
    else if key == "selected" then Str("")
    else if key == "compare_on" then Bool(false)
    else if key == "measuring_units_on" then Bool(true)
    else if key == "price_modifier" then Num(1.0)
    else Undefined
  }

  /** The defaults as a settings record (`g_settings_defaults` itself, or a JSON clone of it). */
  function DefaultSettings(): (m: Settings)
    ensures m.Keys == set k | k in DefaultKeys
    ensures forall k :: Get(m, k) == DefaultOf(k)
  {
    map k | k in DefaultKeys :: DefaultOf(k)
  }

  /** The two legacy query keys: `cost` is read as `cost_duration`, `term` as `reserved_term`. */
  function CanonicalKey(key: string): (k: string)
    ensures k != "cost" && k != "term"
    ensures key == "cost" ==> k == "cost_duration"
    ensures key == "term" ==> k == "reserved_term"
    ensures key != "cost" && key != "term" ==> k == key
  {
    if key == "cost" then "cost_duration"
    else if key == "term" then "reserved_term"
    else key
  }

  /**
   * One `key=value` piece of the query: the text before the first `=` is the
   * key (legacy names rewritten), the text between the first and a second `=`
   * is the value, kept as a raw string; without any `=` the value is `undefined`.
   */
  function ParsePair(param: string): (kv: (string, Value))
    ensures kv.1.Undefined? || kv.1.Str?
    ensures kv.1.Str? <==> '=' in param
    ensures kv.0 != "cost" && kv.0 != "term"
  {
    var parts := Split(param, '=');
    SplitHasSecondPiece(param, '=');
    (CanonicalKey(parts[0]), if |parts| >= 2 then Str(parts[1]) else Undefined)
  }

  /**
   * The pieces read one by one: one assignment per piece, none of them to a
   * legacy key, and a value exactly for the pieces that hold an `=`.
   */
  function ParsePairs(params: seq<string>): (kvs: seq<(string, Value)>)
    ensures |kvs| == |params|
    ensures forall i :: 0 <= i < |params| ==> kvs[i].0 != "cost" && kvs[i].0 != "term"
    ensures forall i :: 0 <= i < |params| ==> (kvs[i].1.Str? <==> '=' in params[i])
  {
    seq(|params|, i requires 0 <= i < |params| => ParsePair(params[i]))
  }

  /**
   * The assignments `load_settings` performs for `location.search`: nothing
   * when it is empty, otherwise one per `&`-separated piece after the `?`.
   */
  function SearchPairs(search: string): (kvs: seq<(string, Value)>)
    ensures kvs == [] <==> search == ""
  {
    if search == "" then [] else ParsePairs(Split(search[1..], '&'))
  }

  /** The keys a sequence of assignments writes to. */
  function AssignedKeys(kvs: seq<(string, Value)>): set<string>
  {
    set kv | kv in kvs :: kv.0
  }

  /**
   * `m[k] = v` for every pair in order, later pairs overwriting earlier ones:
   * the record ends up with its own keys and every assigned key.
   */
  function ApplyPairs(m: Settings, kvs: seq<(string, Value)>): (r: Settings)
    ensures r.Keys == m.Keys + AssignedKeys(kvs)
  {
    if kvs == [] then m
    else
      var front := kvs[..|kvs| - 1];
      var last := kvs[|kvs| - 1];
      assert kvs == front + [last];
      ApplyPairs(m, front)[last.0 := last.1]
  }

  /**
   * The default-fill loop: each key still `undefined` gets its default, so
   * every listed key ends up present (holding `undefined` when it has none).
   */
  function FillDefaults(m: Settings, keys: seq<string>): (r: Settings)
    ensures r.Keys == m.Keys + (set k | k in keys)
  {
    if keys == [] then m
    else
      var front := keys[..|keys| - 1];
      var filled := FillDefaults(m, front);
      var k := keys[|keys| - 1];
      assert keys == front + [k];
      if Get(filled, k).Undefined? then filled[k := DefaultOf(k)] else filled
  }

  /** `store.get('ec2_settings') || {}`. */
  function StoredOrEmpty(stored: Option<Settings>): Settings
  {
    match stored
    case Some(m) => m
    case None => map[]
  }

  /**
   * The record `load_settings` leaves in `g_settings`: the stored keys, the
   * keys the URL assigns, and every key of the defaults.
   */
  function Loaded(stored: Option<Settings>, search: string): (r: Settings)
    ensures r.Keys == StoredOrEmpty(stored).Keys + AssignedKeys(SearchPairs(search)) + (set k | k in DefaultKeys)
  {
    FillDefaults(ApplyPairs(StoredOrEmpty(stored), SearchPairs(search)), DefaultKeys)
  }

  // ---------------------------------------------------------------------------
  // Assigning pairs

  /** An assignment not followed by another to the same key decides that key. */
  lemma {:induction false} ApplyPairsLastWins(m: Settings, kvs: seq<(string, Value)>, i: nat)
    requires i < |kvs|
    requires forall j :: i < j < |kvs| ==> kvs[j].0 != kvs[i].0
    ensures kvs[i].0 in ApplyPairs(m, kvs)
    ensures ApplyPairs(m, kvs)[kvs[i].0] == kvs[i].1
    decreases |kvs|
  {
    if i < |kvs| - 1 {
      var front := kvs[..|kvs| - 1];
      assert front[i] == kvs[i];
      forall j | i < j < |front| ensures front[j].0 != front[i].0 {
        assert front[j] == kvs[j];
      }
      ApplyPairsLastWins(m, front, i);
    }
  }

  /** A key no pair assigns keeps whatever the record had (or lacked). */
  lemma {:induction false} ApplyPairsUntouched(m: Settings, kvs: seq<(string, Value)>, k: string)
    requires forall j :: 0 <= j < |kvs| ==> kvs[j].0 != k
    ensures k in ApplyPairs(m, kvs) <==> k in m
    ensures k in m ==> ApplyPairs(m, kvs)[k] == m[k]
    decreases |kvs|
  {
    if kvs != [] {
      var front := kvs[..|kvs| - 1];
      forall j | 0 <= j < |front| ensures front[j].0 != k {
        assert front[j] == kvs[j];
      }
      ApplyPairsUntouched(m, front, k);
    }
  }

  // ---------------------------------------------------------------------------
  // Filling defaults

  /**
   * After the fill every listed key with a default is defined, a key that was
   * already defined keeps its value, a listed key that was undefined gets its
   * default, and keys outside the list are left exactly as they were.
   */
  lemma {:induction false} FillDefaultsSpec(m: Settings, keys: seq<string>)
    ensures forall k :: k in keys && k in DefaultKeys ==> !Get(FillDefaults(m, keys), k).Undefined?
    ensures forall k :: !Get(m, k).Undefined? ==> Get(FillDefaults(m, keys), k) == Get(m, k)
    ensures forall k :: k in keys && Get(m, k).Undefined? ==> Get(FillDefaults(m, keys), k) == DefaultOf(k)
    ensures forall k :: k !in keys ==> (k in FillDefaults(m, keys) <==> k in m)
    ensures forall k :: k !in keys && k in m ==> FillDefaults(m, keys)[k] == m[k]
    decreases |keys|
  {
    if keys != [] {
      var front := keys[..|keys| - 1];
      var last := keys[|keys| - 1];
      FillDefaultsSpec(m, front);
      assert forall k :: k in keys <==> k in front || k == last;
    }
  }

  // ---------------------------------------------------------------------------
  // Reading the query string

  /** `key=value` is read as the pair (key, value), the legacy names rewritten. */
  lemma ParsePairOfAssignment(key: string, value: string)
    requires '=' !in key && '=' !in value
    ensures ParsePair(key + "=" + value) == (CanonicalKey(key), Str(value))
  {
    SplitWithoutSeparator(value, '=');
    SplitAtFirstSeparator(key, '=', value);
  }

  /** `key=value=more` keeps only `value`: text after a second `=` is dropped. */
  lemma ParsePairDropsAfterSecondEquals(key: string, value: string, more: string)
    requires '=' !in key && '=' !in value
    ensures ParsePair(key + "=" + value + "=" + more) == (CanonicalKey(key), Str(value))
  {
    SplitAtFirstSeparator(value, '=', more);
    assert key + "=" + value + "=" + more == key + ['='] + (value + ['='] + more);
    SplitAtFirstSeparator(key, '=', value + ['='] + more);
  }

  /** A piece with no `=` assigns `undefined` to its key. */
  lemma ParsePairWithoutEquals(key: string)
    requires '=' !in key
    ensures ParsePair(key) == (CanonicalKey(key), Undefined)
  {
    SplitWithoutSeparator(key, '=');
  }

  /** A query string `?p1&p2&...` yields one assignment per piece, in order. */
  lemma SearchPairsOfJoin(params: seq<string>)
    requires |params| >= 1
    requires forall i :: 0 <= i < |params| ==> '&' !in params[i]
    ensures SearchPairs("?" + Join(params, '&')) == ParsePairs(params)
  {
    var search := "?" + Join(params, '&');
    assert search[1..] == Join(params, '&');
    SplitJoin(params, '&');
  }

  // ---------------------------------------------------------------------------
  // What load_settings leaves behind

  /** Every key of the defaults is defined after loading, whatever the store and the URL held. */
  lemma LoadDefinesEveryDefault(stored: Option<Settings>, search: string)
    ensures forall k :: k in DefaultKeys ==> !Get(Loaded(stored, search), k).Undefined?
  {
    FillDefaultsSpec(ApplyPairs(StoredOrEmpty(stored), SearchPairs(search)), DefaultKeys);
  }

  /**
   * A URL assignment with a value (the last one for its key) overwrites the
   * stored setting, and is kept as the raw string, never replaced by a default.
   */
  lemma LoadUrlOverridesStore(stored: Option<Settings>, search: string, i: nat)
    requires i < |SearchPairs(search)|
    requires SearchPairs(search)[i].1.Str?
    requires forall j :: i < j < |SearchPairs(search)| ==> SearchPairs(search)[j].0 != SearchPairs(search)[i].0
    ensures Get(Loaded(stored, search), SearchPairs(search)[i].0) == SearchPairs(search)[i].1
  {
    var kvs := SearchPairs(search);
    var merged := ApplyPairs(StoredOrEmpty(stored), kvs);
    ApplyPairsLastWins(StoredOrEmpty(stored), kvs, i);
    FillDefaultsSpec(merged, DefaultKeys);
  }

  /**
   * A URL piece without `=` (the last one for its key) leaves its key
   * `undefined`, so a key with a default falls back to that default.
   */
  lemma LoadUndefinedFallsBackToDefault(stored: Option<Settings>, search: string, i: nat)
    requires i < |SearchPairs(search)|
    requires SearchPairs(search)[i].1.Undefined?
    requires forall j :: i < j < |SearchPairs(search)| ==> SearchPairs(search)[j].0 != SearchPairs(search)[i].0
    ensures Get(Loaded(stored, search), SearchPairs(search)[i].0) == DefaultOf(SearchPairs(search)[i].0)
  {
    var kvs := SearchPairs(search);
    var merged := ApplyPairs(StoredOrEmpty(stored), kvs);
    ApplyPairsLastWins(StoredOrEmpty(stored), kvs, i);
    FillDefaultsSpec(merged, DefaultKeys);
  }

  /**
   * A key the URL does not mention keeps its stored value when that is
   * defined, and otherwise gets its default (or stays undefined when it has none).
   */
  lemma LoadKeepsStoredOrDefault(stored: Option<Settings>, search: string, k: string)
    requires forall j :: 0 <= j < |SearchPairs(search)| ==> SearchPairs(search)[j].0 != k
    ensures !Get(StoredOrEmpty(stored), k).Undefined? ==> Get(Loaded(stored, search), k) == Get(StoredOrEmpty(stored), k)
    ensures Get(StoredOrEmpty(stored), k).Undefined? ==> Get(Loaded(stored, search), k) == DefaultOf(k)
  {
    var base := StoredOrEmpty(stored);
    var merged := ApplyPairs(base, SearchPairs(search));
    ApplyPairsUntouched(base, SearchPairs(search), k);
    assert Get(merged, k) == Get(base, k);
    FillDefaultsSpec(merged, DefaultKeys);
  }

  /** The legacy names never become keys: `cost` and `term` can only come from the store. */
  lemma LoadNeverAssignsLegacyKeys(search: string)
    ensures forall j :: 0 <= j < |SearchPairs(search)| ==>
              SearchPairs(search)[j].0 != "cost" && SearchPairs(search)[j].0 != "term"
  {
  }

  /** `?cost=v` sets `cost_duration` to the raw string `v`. */
  lemma LoadLegacyCost(stored: Option<Settings>, v: string)
    requires '=' !in v && '&' !in v
    ensures Get(Loaded(stored, "?cost=" + v), "cost_duration") == Str(v)
  {
    assert "?cost=" + v == "?" + "cost" + "=" + v;
    LoadLegacyPiece(stored, "cost", v);
  }

  /** `?term=v` sets `reserved_term` to the raw string `v`. */
  lemma LoadLegacyTerm(stored: Option<Settings>, v: string)
    requires '=' !in v && '&' !in v
    ensures Get(Loaded(stored, "?term=" + v), "reserved_term") == Str(v)
  {
    assert "?term=" + v == "?" + "term" + "=" + v;
    LoadLegacyPiece(stored, "term", v);
  }

  /** A one-piece query `?key=v` sets the canonical name of `key` to `v`. */
  lemma LoadLegacyPiece(stored: Option<Settings>, key: string, v: string)
    requires '=' !in key && '&' !in key && '=' !in v && '&' !in v
    ensures Get(Loaded(stored, "?" + key + "=" + v), CanonicalKey(key)) == Str(v)
  {
    var piece := key + "=" + v;
    assert '&' !in piece;
    assert Join([piece], '&') == piece;
    assert "?" + key + "=" + v == "?" + Join([piece], '&');
    SearchPairsOfJoin([piece]);
    ParsePairOfAssignment(key, v);
    LoadUrlOverridesStore(stored, "?" + key + "=" + v, 0);
  }

  /** The query string `?k1=v1&k2=v2`. */
  function TwoAssignments(k1: string, v1: string, k2: string, v2: string): string
  {
    "?" + k1 + "=" + v1 + "&" + k2 + "=" + v2
  }

  /** The assignments a two-piece query string `?k1=v1&k2=v2` asks for, in order. */
  lemma TwoAssignmentsPairs(k1: string, v1: string, k2: string, v2: string)
    requires '=' !in k1 && '=' !in v1 && '=' !in k2 && '=' !in v2
    requires '&' !in k1 && '&' !in v1 && '&' !in k2 && '&' !in v2
    ensures SearchPairs(TwoAssignments(k1, v1, k2, v2))
            == [(CanonicalKey(k1), Str(v1)), (CanonicalKey(k2), Str(v2))]
  {
    var first := k1 + "=" + v1;
    var second := k2 + "=" + v2;
    var params := [first, second];
    assert Join(params[1..], '&') == second;
    assert TwoAssignments(k1, v1, k2, v2) == "?" + Join(params, '&');
    assert '&' !in first && '&' !in second;
    SearchPairsOfJoin(params);
    ParsePairOfAssignment(k1, v1);
    ParsePairOfAssignment(k2, v2);
  }

  /**
   * Loading `?k1=v1&k2=v2` over an empty store (as for
   * `?min_memory=16&region=eu-west-1`): both keys hold the URL's raw strings.
   */
  lemma LoadTwoFromUrl(k1: string, v1: string, k2: string, v2: string)
    requires '=' !in k1 && '=' !in v1 && '=' !in k2 && '=' !in v2
    requires '&' !in k1 && '&' !in v1 && '&' !in k2 && '&' !in v2
    requires CanonicalKey(k1) != CanonicalKey(k2)
    ensures Get(Loaded(None, TwoAssignments(k1, v1, k2, v2)), CanonicalKey(k1)) == Str(v1)
    ensures Get(Loaded(None, TwoAssignments(k1, v1, k2, v2)), CanonicalKey(k2)) == Str(v2)
  {
    TwoAssignmentsPairs(k1, v1, k2, v2);
    LoadUrlOverridesStore(None, TwoAssignments(k1, v1, k2, v2), 0);
    LoadUrlOverridesStore(None, TwoAssignments(k1, v1, k2, v2), 1);
  }

  /** Loading `?k1=v1&k2=v2` over an empty store: every other key gets its default. */
  lemma LoadTwoDefaults(k1: string, v1: string, k2: string, v2: string, k: string)
    requires '=' !in k1 && '=' !in v1 && '=' !in k2 && '=' !in v2
    requires '&' !in k1 && '&' !in v1 && '&' !in k2 && '&' !in v2
    requires k != CanonicalKey(k1) && k != CanonicalKey(k2)
    ensures Get(Loaded(None, TwoAssignments(k1, v1, k2, v2)), k) == DefaultOf(k)
  {
    TwoAssignmentsPairs(k1, v1, k2, v2);
    LoadKeepsStoredOrDefault(None, TwoAssignments(k1, v1, k2, v2), k);
  }

  /** With an empty store and no query string, loading gives exactly the defaults. */
  lemma LoadOfNothingIsDefaults()
    ensures Loaded(None, "") == DefaultSettings()
  {
    var loaded := Loaded(None, "");
    assert SearchPairs("") == [];
    FillDefaultsSpec(map[], DefaultKeys);
    assert loaded.Keys == DefaultSettings().Keys;
    forall k | k in loaded
      ensures loaded[k] == DefaultSettings()[k]
    {
      assert Get(loaded, k) == DefaultOf(k);
    }
  }
}
