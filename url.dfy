/**
 * The URL synchroniser: `url_for_selections` in www/default.js builds the
 * shareable address from the settings record, the table's search text and
 * the highlighted rows, leaving out every empty or default-valued setting.
 */
module UrlSync {
  import opened Wrappers
  import opened JsString
  import opened JsValue
  import opened SettingsStore

  /** The keys of the `params` record, in the order the record literal lists them. */
  const RecordKeys: seq<string> := [
    "min_memory", "min_vcpus", "min_memory_per_vcpu", "min_storage", "filter",
    "region", "pricing_unit", "cost_duration", "reserved_term",
    "compare_on", "measuring_units_on", "price_modifier"
  ]

  /** The `params` record before anything is deleted; `filter` is the table's search text. */
  function ParamRecord(settings: Settings, search: string): (ps: seq<(string, Value)>)
    ensures |ps| == |RecordKeys|
    ensures forall p :: 0 <= p < |ps| ==> ps[p].0 == RecordKeys[p]
    ensures forall p :: 0 <= p < |ps| ==>
              ps[p].1 == if RecordKeys[p] == "filter" then Str(search) else Get(settings, RecordKeys[p])
  {
    [ ("min_memory", Get(settings, "min_memory")),
      ("min_vcpus", Get(settings, "min_vcpus")),
      ("min_memory_per_vcpu", Get(settings, "min_memory_per_vcpu")),
      ("min_storage", Get(settings, "min_storage")),
      ("filter", Str(search)),
      ("region", Get(settings, "region")),
      ("pricing_unit", Get(settings, "pricing_unit")),
      ("cost_duration", Get(settings, "cost_duration")),
      ("reserved_term", Get(settings, "reserved_term")),
      ("compare_on", Get(settings, "compare_on")),
      ("measuring_units_on", Get(settings, "measuring_units_on")),
      ("price_modifier", Get(settings, "price_modifier")) ]
  }

  /** The deletion test: `''`, `null`/`undefined`, or strictly equal to the key's default. */
  predicate Dropped(kv: (string, Value))
  {
    kv.1 == Str("") || IsNullish(kv.1) || StrictEquals(kv.1, DefaultOf(kv.0))
  }

  /** The entries the deletion loop leaves in `params`, in their original order: none of them dropped. */
  function Kept(ps: seq<(string, Value)>): (r: seq<(string, Value)>)
    ensures |r| <= |ps|
    ensures forall i :: 0 <= i < |r| ==> !Dropped(r[i])
  {
    if ps == [] then []
    else
      var last := ps[|ps| - 1];
      Kept(ps[..|ps| - 1]) + (if Dropped(last) then [] else [last])
  }

  /** `params.selected = ids` when at least one row is highlighted. */
  function WithSelected(ps: seq<(string, Value)>, ids: seq<string>): seq<(string, Value)>
  {
    if |ids| > 0 then ps + [("selected", Ids(ids))] else ps
  }

  /** The final `params` record, in iteration order. */
  function Emitted(settings: Settings, search: string, ids: seq<string>): seq<(string, Value)>
  {
    WithSelected(Kept(ParamRecord(settings, search)), ids)
  }

  /** The `key=value` strings pushed for every entry that is not `undefined`. */
  function Parameters(ps: seq<(string, Value)>, fmt: real -> string): seq<string>
  {
    if ps == [] then []
    else
      var last := ps[|ps| - 1];
      Parameters(ps[..|ps| - 1], fmt)
        + (if last.1.Undefined? then [] else [last.0 + "=" + ToString(last.1, fmt)])
  }

  /** The address `url_for_selections` returns. */
  function SelectionsUrl(settings: Settings, search: string, ids: seq<string>,
                         origin: string, pathname: string, fmt: real -> string): string
  {
    var parameters := Parameters(Emitted(settings, search, ids), fmt);
    origin + pathname + (if |parameters| > 0 then "?" + Join(parameters, '&') else "")
  }

  /**
   * The positions in `ps` of the entries `Kept` keeps: strictly increasing, so
   * the kept entries appear in the order of the original record.
   */
  function KeptPositions(ps: seq<(string, Value)>): (idx: seq<nat>)
    ensures |idx| == |Kept(ps)|
    ensures forall i :: 0 <= i < |idx| ==> idx[i] < |ps| && ps[idx[i]] == Kept(ps)[i]
    ensures forall i, j :: 0 <= i < j < |idx| ==> idx[i] < idx[j]
  {
    if ps == [] then []
    else
      var front := ps[..|ps| - 1];
      var last := ps[|ps| - 1];
      var before := KeptPositions(front);
      assert Kept(ps) == Kept(front) + (if Dropped(last) then [] else [last]);
      assert forall i :: 0 <= i < |before| ==> ps[before[i]] == front[before[i]];
      before + (if Dropped(last) then [] else [|ps| - 1])
  }

  // ---------------------------------------------------------------------------
  // What is emitted

  /** An entry survives the deletion loop exactly when it is in the record and not dropped. */
  lemma {:induction false} KeptExactly(ps: seq<(string, Value)>, kv: (string, Value))
    ensures kv in Kept(ps) <==> kv in ps && !Dropped(kv)
    decreases |ps|
  {
    if ps != [] {
      var front := ps[..|ps| - 1];
      KeptExactly(front, kv);
      assert ps == front + [ps[|ps| - 1]];
    }
  }

  lemma RecordKeysExcludeSelected()
    ensures "selected" !in RecordKeys
  {
  }

  lemma RecordKeysDistinct()
    ensures forall p, q :: 0 <= p < q < |RecordKeys| ==> RecordKeys[p] != RecordKeys[q]
  {
  }

  lemma RecordKeysPlain()
    ensures forall p :: 0 <= p < |RecordKeys| ==> '&' !in RecordKeys[p] && '=' !in RecordKeys[p]
    ensures forall p :: 0 <= p < |RecordKeys| ==> RecordKeys[p] != "cost" && RecordKeys[p] != "term"
  {
  }

  /** The facts about the record's keys that the round trip relies on. */
  lemma RecordKeysFacts()
    ensures "selected" !in RecordKeys
    ensures forall p, q :: 0 <= p < q < |RecordKeys| ==> RecordKeys[p] != RecordKeys[q]
    ensures forall p :: 0 <= p < |RecordKeys| ==> '&' !in RecordKeys[p] && '=' !in RecordKeys[p]
    ensures forall p :: 0 <= p < |RecordKeys| ==> RecordKeys[p] != "cost" && RecordKeys[p] != "term"
  {
    RecordKeysExcludeSelected();
    RecordKeysDistinct();
    RecordKeysPlain();
  }

  /**
   * No emitted entry is `''`, `null`, `undefined` or strictly equal to its
   * default; every kept record entry comes from the record; `selected` is
   * present exactly when some row is highlighted, and then it is last.
   */
  lemma EmittedShape(settings: Settings, search: string, ids: seq<string>)
    ensures forall i :: 0 <= i < |Emitted(settings, search, ids)| ==>
              var kv := Emitted(settings, search, ids)[i];
              kv.1 != Str("") && !IsNullish(kv.1) && !StrictEquals(kv.1, DefaultOf(kv.0))
    ensures (exists i :: 0 <= i < |Emitted(settings, search, ids)| && Emitted(settings, search, ids)[i].0 == "selected")
            <==> |ids| > 0
    ensures |ids| > 0 ==> Emitted(settings, search, ids)[|Emitted(settings, search, ids)| - 1] == ("selected", Ids(ids))
    ensures forall kv :: kv in ParamRecord(settings, search) ==>
              (kv in Emitted(settings, search, ids) <==> !Dropped(kv))
  {
    var record := ParamRecord(settings, search);
    var kept := Kept(record);
    var e := Emitted(settings, search, ids);
    forall i | 0 <= i < |kept| ensures !Dropped(kept[i]) && kept[i] in record {
      KeptExactly(record, kept[i]);
    }
    RecordKeysFacts();
    forall i | 0 <= i < |kept| ensures kept[i].0 != "selected" {
      var p :| 0 <= p < |record| && record[p] == kept[i];
    }
    forall kv | kv in record ensures kv in e <==> !Dropped(kv) {
      KeptExactly(record, kv);
      var p :| 0 <= p < |record| && record[p] == kv;
      assert kv.0 != "selected";
    }
    if |ids| > 0 {
      assert e[|e| - 1].0 == "selected";
    } else {
      assert e == kept;
    }
  }

  /** A record whose every entry is deleted leaves nothing. */
  lemma {:induction false} KeptNone(ps: seq<(string, Value)>)
    requires forall i :: 0 <= i < |ps| ==> Dropped(ps[i])
    ensures Kept(ps) == []
    decreases |ps|
  {
    if ps != [] {
      var front := ps[..|ps| - 1];
      assert forall i :: 0 <= i < |front| ==> front[i] == ps[i];
      KeptNone(front);
    }
  }

  /** At the defaults, with an empty search and nothing highlighted, no parameter is emitted. */
  lemma DefaultsEmitNothing()
    ensures Emitted(DefaultSettings(), "", []) == []
  {
    var record := ParamRecord(DefaultSettings(), "");
    forall i | 0 <= i < |record| ensures Dropped(record[i]) {
      assert record[i].1 == Str("") || record[i].1 == DefaultOf(record[i].0);
    }
    KeptNone(record);
  }

  /** The kept record entries appear in the record's key order. */
  lemma EmittedInRecordOrder(settings: Settings, search: string)
    ensures forall i, j :: 0 <= i < j < |Kept(ParamRecord(settings, search))| ==>
              IndexOf(RecordKeys, Kept(ParamRecord(settings, search))[i].0)
              < IndexOf(RecordKeys, Kept(ParamRecord(settings, search))[j].0)
  {
    var record := ParamRecord(settings, search);
    var kept := Kept(record);
    var idx := KeptPositions(record);
    RecordKeysDistinct();
    forall i | 0 <= i < |kept| ensures IndexOf(RecordKeys, kept[i].0) == idx[i] {
      assert kept[i].0 == RecordKeys[idx[i]];
    }
  }

  /** The keys of the final `params` record are pairwise distinct. */
  lemma EmittedKeysDistinct(settings: Settings, search: string, ids: seq<string>)
    ensures forall i, j :: 0 <= i < j < |Emitted(settings, search, ids)| ==>
              Emitted(settings, search, ids)[i].0 != Emitted(settings, search, ids)[j].0
    ensures forall i :: 0 <= i < |Emitted(settings, search, ids)| ==>
              var k := Emitted(settings, search, ids)[i].0;
              (k in RecordKeys || k == "selected") && '&' !in k && '=' !in k && k != "cost" && k != "term"
  {
    var record := ParamRecord(settings, search);
    var kept := Kept(record);
    var idx := KeptPositions(record);
    var e := Emitted(settings, search, ids);
    RecordKeysFacts();
    assert forall i :: 0 <= i < |kept| ==> kept[i].0 == RecordKeys[idx[i]];
    assert forall i :: 0 <= i < |kept| ==> e[i] == kept[i];
  }

  // ---------------------------------------------------------------------------
  // The query string

  /** No entry of the final record is `undefined`, so each one yields a `key=value` string. */
  lemma {:induction false} ParametersOfDefined(ps: seq<(string, Value)>, fmt: real -> string)
    requires forall i :: 0 <= i < |ps| ==> !ps[i].1.Undefined?
    ensures |Parameters(ps, fmt)| == |ps|
    ensures forall i :: 0 <= i < |ps| ==> Parameters(ps, fmt)[i] == ps[i].0 + "=" + ToString(ps[i].1, fmt)
    decreases |ps|
  {
    if ps != [] {
      var front := ps[..|ps| - 1];
      ParametersOfDefined(front, fmt);
    }
  }

  /** Nothing the final record holds is `undefined`, so every entry is printed. */
  lemma EmittedDefined(settings: Settings, search: string, ids: seq<string>)
    ensures forall i :: 0 <= i < |Emitted(settings, search, ids)| ==> !Emitted(settings, search, ids)[i].1.Undefined?
  {
    EmittedShape(settings, search, ids);
  }

  /**
   * The address is the origin and path alone when nothing is emitted, and
   * otherwise that followed by `?` and the `&`-joined parameters.
   */
  lemma UrlShape(settings: Settings, search: string, ids: seq<string>,
                 origin: string, pathname: string, fmt: real -> string)
    ensures |Emitted(settings, search, ids)| == 0 ==>
              SelectionsUrl(settings, search, ids, origin, pathname, fmt) == origin + pathname
    ensures |Emitted(settings, search, ids)| > 0 ==>
              SelectionsUrl(settings, search, ids, origin, pathname, fmt)
              == origin + pathname + "?" + Join(Parameters(Emitted(settings, search, ids), fmt), '&')
  {
    EmittedDefined(settings, search, ids);
    ParametersOfDefined(Emitted(settings, search, ids), fmt);
  }

  /**
   * A character the browser keeps unchanged in the query of an address, so
   * that `location.search` gives it back as written: printable ASCII other
   * than the ones the URL parser percent-encodes there (space, `"`, `'`, `<`,
   * `>`) and `#`, which would start the fragment.
   */
  predicate QueryChar(c: char)
  {
    ' ' < c <= '~' && c != '"' && c != '\'' && c != '<' && c != '>' && c != '#'
  }

  /**
   * The values of the final record print without `&` or `=`, and with only
   * characters the query keeps as they are.
   */
  predicate UrlSafe(settings: Settings, search: string, ids: seq<string>, fmt: real -> string)
  {
    forall i :: 0 <= i < |Emitted(settings, search, ids)| ==>
      var v := ToString(Emitted(settings, search, ids)[i].1, fmt);
      '&' !in v && '=' !in v && forall j :: 0 <= j < |v| ==> QueryChar(v[j])
  }

  /**
   * Round trip: reading back the query the address carries yields exactly
   * the emitted keys with the printed values, in order.
   */
  lemma QueryRoundTrip(settings: Settings, search: string, ids: seq<string>, fmt: real -> string)
    requires |Emitted(settings, search, ids)| > 0
    requires UrlSafe(settings, search, ids, fmt)
    ensures var e := Emitted(settings, search, ids);
            var read := SearchPairs("?" + Join(Parameters(e, fmt), '&'));
            |read| == |e| &&
            forall i :: 0 <= i < |e| ==> read[i] == (e[i].0, Str(ToString(e[i].1, fmt)))
  {
    var e := Emitted(settings, search, ids);
    var params := Parameters(e, fmt);
    EmittedShape(settings, search, ids);
    EmittedKeysDistinct(settings, search, ids);
    ParametersOfDefined(e, fmt);
    forall i | 0 <= i < |params| ensures '&' !in params[i] {
      assert params[i] == e[i].0 + "=" + ToString(e[i].1, fmt);
    }
    SearchPairsOfJoin(params);
    forall i | 0 <= i < |e| ensures ParsePair(params[i]) == (e[i].0, Str(ToString(e[i].1, fmt))) {
      ParsePairOfAssignment(e[i].0, ToString(e[i].1, fmt));
    }
  }

  /**
   * Loading the address produced: every emitted setting comes back as the
   * string it was printed as, whatever the local store held.
   */
  lemma LoadAfterSerialise(stored: Option<Settings>, settings: Settings, search: string,
                           ids: seq<string>, fmt: real -> string, i: nat)
    requires i < |Emitted(settings, search, ids)|
    requires UrlSafe(settings, search, ids, fmt)
    ensures var e := Emitted(settings, search, ids);
            Get(Loaded(stored, "?" + Join(Parameters(e, fmt), '&')), e[i].0) == Str(ToString(e[i].1, fmt))
  {
    var e := Emitted(settings, search, ids);
    var query := "?" + Join(Parameters(e, fmt), '&');
    QueryRoundTrip(settings, search, ids, fmt);
    EmittedKeysDistinct(settings, search, ids);
    var read := SearchPairs(query);
    forall j | i < j < |read| ensures read[j].0 != read[i].0 {
      assert read[j].0 == e[j].0;
    }
    LoadUrlOverridesStore(stored, query, i);
  }

  /** A string setting that differs from its default survives the round trip unchanged. */
  lemma StringSettingRoundTrip(stored: Option<Settings>, settings: Settings, search: string,
                               ids: seq<string>, fmt: real -> string, k: string)
    requires k in RecordKeys && k != "filter"
    requires Get(settings, k).Str? && !Dropped((k, Get(settings, k)))
    requires UrlSafe(settings, search, ids, fmt)
    ensures Get(Loaded(stored, "?" + Join(Parameters(Emitted(settings, search, ids), fmt), '&')), k)
            == Get(settings, k)
  {
    var record := ParamRecord(settings, search);
    var e := Emitted(settings, search, ids);
    var p :| 0 <= p < |RecordKeys| && RecordKeys[p] == k;
    assert record[p] == (k, Get(settings, k));
    EmittedShape(settings, search, ids);
    assert (k, Get(settings, k)) in e;
    var i :| 0 <= i < |e| && e[i] == (k, Get(settings, k));
    LoadAfterSerialise(stored, settings, search, ids, fmt, i);
  }

  /**
   * Switching measuring units off is written to the address as `false`, and
   * reading the address back gives the string "false", which the page's
   * truthiness tests take as on.
   */
  lemma MeasuringUnitsOffReloadsAsOn(stored: Option<Settings>, settings: Settings, search: string,
                                     ids: seq<string>, fmt: real -> string)
    requires Get(settings, "measuring_units_on") == Bool(false)
    requires UrlSafe(settings, search, ids, fmt)
    ensures Truthy(Get(Loaded(stored, "?" + Join(Parameters(Emitted(settings, search, ids), fmt), '&')),
                       "measuring_units_on"))
  {
    var record := ParamRecord(settings, search);
    var e := Emitted(settings, search, ids);
    assert record[10] == ("measuring_units_on", Bool(false));
    assert ("measuring_units_on", Bool(false)) in record;
    assert !Dropped(("measuring_units_on", Bool(false)));
    EmittedShape(settings, search, ids);
    var i :| 0 <= i < |e| && e[i] == ("measuring_units_on", Bool(false));
    LoadAfterSerialise(stored, settings, search, ids, fmt, i);
  }
}
