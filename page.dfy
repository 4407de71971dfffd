/**
 * The page: the state www/default.js keeps (the settings record
 * `g_settings`, the local store, the table's search text, the table rows and
 * the cost cells) and the handlers that update it in place.
 */
module App {
  import opened Wrappers
  import opened JsString
  import opened JsValue
  import opened SettingsStore
  import opened UrlSync
  import opened PriceProjector
  import opened RowFilter

  class Page {
    /** `g_settings`. */
    var settings: Settings
    /** What `store.get('ec2_settings')` would return; None once the store is cleared. */
    var store: Option<Settings>
    /** The table's search text (`oPreviousSearch.sSearch`). */
    var search: string
    /** The rows of the table body, in table order. */
    const rows: array<Row>
    /** The cost cells of the table, in document order. */
    const cells: array<CostCell>

    /** A page before `load_settings` has run: `g_settings` is `{}`. */
    constructor(tableRows: seq<Row>, costCells: seq<CostCell>, stored: Option<Settings>)
      ensures settings == map[] && store == stored && search == ""
      ensures rows[..] == tableRows && cells[..] == costCells
      ensures fresh(rows) && fresh(cells)
    {
      settings := map[];
      store := stored;
      search := "";
      rows := new Row[|tableRows|](i requires 0 <= i < |tableRows| => tableRows[i]);
      cells := new CostCell[|costCells|](i requires 0 <= i < |costCells| => costCells[i]);
    }

    /**
     * `load_settings`: start from the stored record, assign every `key=value`
     * piece of the query string, then give each default key still undefined its default.
     */
    method LoadSettings(locationSearch: string)
      modifies this
      ensures settings == Loaded(store, locationSearch)
      ensures store == old(store) && search == old(search)
    {
      settings := StoredOrEmpty(store);
      if locationSearch != "" {
        AssignPieces(Split(locationSearch[1..], '&'));
      }
      FillMissingDefaults();
    }

    /** The `forEach` of `load_settings`: `g_settings[key] = val` for each piece, legacy keys renamed. */
    method AssignPieces(params: seq<string>)
      modifies this
      ensures settings == ApplyPairs(old(settings), ParsePairs(params))
      ensures store == old(store) && search == old(search)
    {
      var i := 0;
      while i < |params|
        invariant 0 <= i <= |params|
        invariant settings == ApplyPairs(old(settings), ParsePairs(params[..i]))
        invariant store == old(store) && search == old(search)
      {
        var key, val := ReadPiece(params[i]);
        assert ParsePairs(params[..i + 1])[..i] == ParsePairs(params[..i]);
        settings := settings[key := val];
        i := i + 1;
      }
      assert params[..i] == params;
    }

    /** The body of that `forEach`: the key before the first `=`, renamed if legacy, and the raw value after it. */
    static method ReadPiece(param: string) returns (key: string, val: Value)
      ensures (key, val) == ParsePair(param)
      ensures key != "cost" && key != "term"
      ensures val.Str? <==> '=' in param
    {
      var parts := Split(param, '=');
      SplitHasSecondPiece(param, '=');
      key := parts[0];
      val := if |parts| >= 2 then Str(parts[1]) else Undefined;
      if key == "cost" {
        key := "cost_duration";
      } else if key == "term" {
        key := "reserved_term";
      }
    }

    /** The `for-in` of `load_settings`: each default key still `undefined` gets its default. */
    method FillMissingDefaults()
      modifies this
      ensures settings == FillDefaults(old(settings), DefaultKeys)
      ensures store == old(store) && search == old(search)
    {
      var j := 0;
      while j < |DefaultKeys|
        invariant 0 <= j <= |DefaultKeys|
        invariant settings == FillDefaults(old(settings), DefaultKeys[..j])
        invariant store == old(store) && search == old(search)
      {
        var key := DefaultKeys[j];
        assert DefaultKeys[..j + 1][..j] == DefaultKeys[..j];
        if Get(settings, key) == Undefined {
          settings := settings[key := DefaultOf(key)];
        }
        j := j + 1;
      }
      assert DefaultKeys[..j] == DefaultKeys;
    }

    /**
     * `url_for_selections`: the record of settings, with empty and default
     * entries deleted, the highlighted row ids as `selected`, joined into a query string.
     */
    method UrlForSelections(origin: string, pathname: string, fmt: real -> string) returns (url: string)
      ensures url == SelectionsUrl(settings, search, HighlightedIds(rows[..]), origin, pathname, fmt)
    {
      var kept := KeepParams(ParamRecord(settings, search));
      var ids := SelectedIds();
      if |ids| > 0 {
        kept := kept + [("selected", Ids(ids))];
      }
      var parameters := ParameterStrings(kept, fmt);
      url := origin + pathname;
      if |parameters| > 0 {
        url := url + "?" + Join(parameters, '&');
      }
    }

    /** The deletion loop of `url_for_selections`: keep what is not empty, nullish or default. */
    static method KeepParams(params: seq<(string, Value)>) returns (kept: seq<(string, Value)>)
      ensures kept == Kept(params)
    {
      kept := [];
      var i := 0;
      while i < |params|
        invariant 0 <= i <= |params|
        invariant kept == Kept(params[..i])
      {
        var kv := params[i];
        assert params[..i + 1][..i] == params[..i];
        if !(kv.1 == Str("") || IsNullish(kv.1) || StrictEquals(kv.1, DefaultOf(kv.0))) {
          kept := kept + [kv];
        }
        i := i + 1;
      }
      assert params[..i] == params;
    }

    /** The ids of the highlighted rows, in table order. */
    method SelectedIds() returns (ids: seq<string>)
      ensures ids == HighlightedIds(rows[..])
    {
      ids := [];
      var r := 0;
      while r < rows.Length
        invariant 0 <= r <= rows.Length
        invariant ids == HighlightedIds(rows[..r])
      {
        assert rows[..r + 1][..r] == rows[..r];
        if rows[r].highlight {
          ids := ids + [rows[r].id];
        }
        r := r + 1;
      }
      assert rows[..r] == rows[..];
    }

    /** The `key=value` strings of `url_for_selections`, one per entry that is not `undefined`. */
    static method ParameterStrings(kept: seq<(string, Value)>, fmt: real -> string) returns (parameters: seq<string>)
      ensures parameters == Parameters(kept, fmt)
    {
      parameters := [];
      var p := 0;
      while p < |kept|
        invariant 0 <= p <= |kept|
        invariant parameters == Parameters(kept[..p], fmt)
      {
        assert kept[..p + 1][..p] == kept[..p];
        if !kept[p].1.Undefined? {
          parameters := parameters + [kept[p].0 + "=" + ToString(kept[p].1, fmt)];
        }
        p := p + 1;
      }
      assert kept[..p] == kept;
    }

    /**
     * `apply_min_values`: show every row, then for each input record its
     * threshold in the settings and hide the rows below it; finally save the
     * settings. The threshold goes under the corrected key `ThresholdKey`; the
     * as-written key is `ThresholdKeyAsWritten`.
     */
    method ApplyMinValues(filters: seq<FilterInput>)
      modifies this, rows
      ensures rows[..] == MinValuesApplied(old(rows[..]), filters)
      ensures settings == ThresholdSettings(old(settings), filters, ThresholdKey)
      ensures store == Some(settings) && search == old(search)
    {
      ghost var start := rows[..];
      ShowRows();
      var f := 0;
      while f < |filters|
        invariant 0 <= f <= |filters|
        invariant rows[..] == MinValuesApplied(start, filters[..f])
        invariant settings == ThresholdSettings(old(settings), filters[..f], ThresholdKey)
        invariant search == old(search)
      {
        var filter := filters[f];
        assert filters[..f + 1][..f] == filters[..f];
        assert ThresholdPairs(filters[..f + 1], ThresholdKey)[..f] == ThresholdPairs(filters[..f], ThresholdKey);
        settings := settings[ThresholdKey(filter.kind) := Num(Threshold(filter.text))];
        HideBelow(filter);
        f := f + 1;
      }
      assert filters[..f] == filters;
      store := Some(settings);
    }

    /** `data_rows.show()`. */
    method ShowRows()
      modifies rows
      ensures rows[..] == ShowAll(old(rows[..]))
    {
      var i := 0;
      while i < rows.Length
        invariant 0 <= i <= rows.Length
        invariant forall k :: 0 <= k < i ==> rows[k] == old(rows[k]).(shown := true)
        invariant forall k :: i <= k < rows.Length ==> rows[k] == old(rows[k])
      {
        rows[i] := rows[i].(shown := true);
        i := i + 1;
      }
    }

    /** `match_fail.hide()` for one input. */
    method HideBelow(filter: FilterInput)
      modifies rows
      ensures rows[..] == HideFailing(old(rows[..]), filter)
    {
      var r := 0;
      while r < rows.Length
        invariant 0 <= r <= rows.Length
        invariant forall k :: 0 <= k < r ==> rows[k] == HideFailing(old(rows[..]), filter)[k]
        invariant forall k :: r <= k < rows.Length ==> rows[k] == old(rows[k])
      {
        if Fails(rows[r], filter) {
          rows[r] := rows[r].(shown := false);
        }
        r := r + 1;
      }
    }

    /** `update_visible_rows`: compare off shows every row; compare on hides the rows not highlighted. */
    method UpdateVisibleRows()
      modifies rows
      ensures rows[..] == CompareApplied(old(rows[..]), Truthy(Get(settings, "compare_on")))
    {
      var compareOn := Truthy(Get(settings, "compare_on"));
      ghost var start := rows[..];
      var i := 0;
      while i < rows.Length
        invariant 0 <= i <= rows.Length
        invariant forall k :: 0 <= k < i ==> rows[k] == CompareApplied(start, compareOn)[k]
        invariant forall k :: i <= k < rows.Length ==> rows[k] == start[k]
      {
        if !compareOn {
          rows[i] := rows[i].(shown := true);
        } else if !rows[i].highlight {
          rows[i] := rows[i].(shown := false);
        }
        i := i + 1;
      }
      assert rows[..] == CompareApplied(start, compareOn);
    }

    /** One of the four passes of `change_cost`: every cell of `category` re-priced. */
    method RepriceCategory(category: Category, duration: string, unit: string, modifier: Value,
                           lookup: PriceQuery -> Value)
      modifies cells
      ensures forall k :: 0 <= k < cells.Length ==>
                cells[k] == RepricedIf(old(cells[k]), category, settings, duration, unit, modifier, lookup)
    {
      ghost var start := cells[..];
      var i := 0;
      while i < cells.Length
        invariant 0 <= i <= cells.Length
        invariant forall k :: 0 <= k < i ==>
                    cells[k] == RepricedIf(start[k], category, settings, duration, unit, modifier, lookup)
        invariant forall k :: i <= k < cells.Length ==> cells[k] == start[k]
      {
        if cells[i].category == category {
          cells[i] := Repriced(cells[i], settings, duration, unit, modifier, lookup);
        }
        i := i + 1;
      }
    }

    /**
     * `change_cost`: re-price the on-demand, reserved, EBS-optimised and EMR
     * cells in four passes, record the duration and the unit, and save the settings.
     */
    method ChangeCost(duration: string, unit: string, modifier: Value, lookup: PriceQuery -> Value)
      modifies this, cells
      ensures cells[..] == RepriceAll(old(cells[..]), old(settings), duration, unit, modifier, lookup)
      ensures settings == old(settings)["cost_duration" := Str(duration)]["pricing_unit" := Str(unit)]
      ensures store == Some(settings) && search == old(search)
    {
      ghost var start := cells[..];
      RepriceCategory(OnDemand, duration, unit, modifier, lookup);
      RepriceCategory(Reserved, duration, unit, modifier, lookup);
      RepriceCategory(EbsOptimized, duration, unit, modifier, lookup);
      RepriceCategory(Emr, duration, unit, modifier, lookup);
      forall k | 0 <= k < cells.Length
        ensures cells[k] == Repriced(start[k], settings, duration, unit, modifier, lookup)
      {
        FourPassesRepriceOnce(start[k], settings, duration, unit, modifier, lookup);
      }
      assert cells[..] == RepriceAll(start, settings, duration, unit, modifier, lookup);
      settings := settings["cost_duration" := Str(duration)]["pricing_unit" := Str(unit)];
      store := Some(settings);
    }

    /**
     * The clear button: the settings become a copy of the defaults, the search
     * text is emptied, every highlight is removed, and the store is cleared.
     */
    method Reset()
      modifies this, rows
      ensures settings == DefaultSettings() && search == "" && store == None
      ensures rows[..] == ClearHighlights(old(rows[..]))
    {
      settings := DefaultSettings();
      search := "";
      ghost var start := rows[..];
      var i := 0;
      while i < rows.Length
        invariant 0 <= i <= rows.Length
        invariant forall k :: 0 <= k < i ==> rows[k] == start[k].(highlight := false)
        invariant forall k :: i <= k < rows.Length ==> rows[k] == start[k]
        modifies rows
      {
        rows[i] := rows[i].(highlight := false);
        i := i + 1;
      }
      assert rows[..] == ClearHighlights(start);
      // `maybe_update_url()` saves the defaults, then `store.clear()` empties the store.
      store := Some(settings);
      store := None;
    }
  }

  /** After the clear button the address is the bare page address. */
  lemma ResetUrlIsBare(rows: seq<Row>, origin: string, pathname: string, fmt: real -> string)
    ensures SelectionsUrl(DefaultSettings(), "", HighlightedIds(ClearHighlights(rows)), origin, pathname, fmt)
            == origin + pathname
  {
    ClearedHasNoSelection(rows);
    DefaultsEmitNothing();
  }
}
