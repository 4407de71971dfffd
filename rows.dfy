/**
 * The row filters of the instance table: the minimum-value inputs of
 * `apply_min_values` and the compare view of `update_visible_rows` in
 * www/default.js, over rows taken as plain records.
 */
module RowFilter {
  import opened JsNumber
  import opened JsString
  import opened JsValue
  import opened SettingsStore
  import opened UrlSync

  /**
   * A row of the table: its id, the `sort` attribute text of the cell in each
   * filterable column (keyed by the column's class), whether it is
   * highlighted, and whether it is shown.
   */
  datatype Row = Row(id: string, sortAttrs: map<string, string>, highlight: bool, shown: bool)

  /** A minimum-value input: its `data-type` (the column it filters) and the text typed into it. */
  datatype FilterInput = FilterInput(kind: string, text: string)

  /** The `data-type`s of the page's four minimum-value inputs. */
  const FilterKinds: seq<string> := ["memory", "vcpus", "memory-per-vcpu", "storage"]

  // ---------------------------------------------------------------------------
  // Minimum values

  /** `parseFloat(text) || 0`: the typed number, or 0 when the text is not numeric. */
  function Threshold(text: string): (t: real)
    ensures ParseFloat(text).NaN? ==> t == 0.0
    ensures ParseFloat(text).Finite? ==> t == ParseFloat(text).x
  {
    match ParseFloat(text)
    case Finite(x) => x
    case NaN => 0.0
  }

  /** `parseFloat` of the row's sort attribute in the `kind` column; NaN when the row has no such cell. */
  function RowValue(row: Row, kind: string): Number
  {
    if kind in row.sortAttrs then ParseFloat(row.sortAttrs[kind]) else NaN
  }

  /** `row_val < filter_val`: the row falls below the input's threshold. */
  predicate Fails(row: Row, f: FilterInput)
  {
    Less(RowValue(row, f.kind), Finite(Threshold(f.text)))
  }

  /** `data_rows.show()`. */
  function ShowAll(rows: seq<Row>): (r: seq<Row>)
    ensures |r| == |rows|
    ensures forall i :: 0 <= i < |rows| ==> r[i].shown && r[i].(shown := rows[i].shown) == rows[i]
  {
    seq(|rows|, i requires 0 <= i < |rows| => rows[i].(shown := true))
  }

  /** `match_fail.hide()` for one input: the rows below its threshold are hidden, the others untouched. */
  function HideFailing(rows: seq<Row>, f: FilterInput): (r: seq<Row>)
    ensures |r| == |rows|
    ensures forall i :: 0 <= i < |rows| ==>
              r[i].(shown := rows[i].shown) == rows[i] && (r[i].shown <==> rows[i].shown && !Fails(rows[i], f))
  {
    seq(|rows|, i requires 0 <= i < |rows| => if Fails(rows[i], f) then rows[i].(shown := false) else rows[i])
  }

  /** The rows after `apply_min_values` has shown them all and run every input over them in turn. */
  function MinValuesApplied(rows: seq<Row>, filters: seq<FilterInput>): (r: seq<Row>)
    ensures |r| == |rows|
    ensures forall i :: 0 <= i < |rows| ==> r[i].(shown := rows[i].shown) == rows[i]
  {
    if filters == [] then ShowAll(rows)
    else HideFailing(MinValuesApplied(rows, filters[..|filters| - 1]), filters[|filters| - 1])
  }

  /** The last input hides a row exactly when the row was shown before it and falls below it. */
  lemma MinValuesLastStep(rows: seq<Row>, filters: seq<FilterInput>, i: nat)
    requires i < |rows| && filters != []
    ensures MinValuesApplied(rows, filters)[i].shown
            <==> MinValuesApplied(rows, filters[..|filters| - 1])[i].shown && !Fails(rows[i], filters[|filters| - 1])
  {
    var last := filters[|filters| - 1];
    var before := MinValuesApplied(rows, filters[..|filters| - 1]);
    assert before[i].sortAttrs == rows[i].sortAttrs;
    assert RowValue(before[i], last.kind) == RowValue(rows[i], last.kind);
  }

  /** Every input passes exactly when all but the last pass and the last one does. */
  lemma AllSplit(filters: seq<FilterInput>, front: seq<FilterInput>, last: FilterInput, ok: FilterInput -> bool)
    requires filters != [] && front == filters[..|filters| - 1] && last == filters[|filters| - 1]
    ensures (forall j :: 0 <= j < |filters| ==> ok(filters[j]))
            <==> (forall j :: 0 <= j < |front| ==> ok(front[j])) && ok(last)
  {
    assert forall j :: 0 <= j < |front| ==> front[j] == filters[j];
  }

  /** After the filter a row is hidden exactly when it falls below some input's threshold. */
  lemma {:induction false} MinValuesShownIff(rows: seq<Row>, filters: seq<FilterInput>, i: nat)
    requires i < |rows|
    ensures MinValuesApplied(rows, filters)[i].shown
            <==> forall j :: 0 <= j < |filters| ==> !Fails(rows[i], filters[j])
    decreases |filters|
  {
    if filters != [] {
      MinValuesShownIff(rows, filters[..|filters| - 1], i);
      MinValuesLastStep(rows, filters, i);
      AllSplit(filters, filters[..|filters| - 1], filters[|filters| - 1], f => !Fails(rows[i], f));
    }
  }

  /** A row whose value equals a threshold is not hidden by it: the comparison is strict. */
  lemma ThresholdIsInclusive(row: Row, f: FilterInput)
    requires RowValue(row, f.kind) == Finite(Threshold(f.text))
    ensures !Fails(row, f)
  {
  }

  /** A row without a numeric value in a column is never hidden by that column's input. */
  lemma NonNumericRowIsKept(row: Row, f: FilterInput)
    requires RowValue(row, f.kind).NaN?
    ensures !Fails(row, f)
  {
  }

  /** A non-numeric input is threshold 0, so it hides only rows with negative values. */
  lemma NonNumericInputIsZero(row: Row, f: FilterInput)
    requires ParseFloat(f.text).NaN?
    ensures Fails(row, f) <==> RowValue(row, f.kind).Finite? && RowValue(row, f.kind).x < 0.0
  {
  }

  /** `min_vcpus` = 4 hides a 2-vCPU row and keeps a 4-vCPU row. */
  lemma MinVcpusExample()
    ensures MinValuesApplied([Row("a", map["vcpus" := "2"], false, true),
                              Row("b", map["vcpus" := "4"], false, false)],
                             [FilterInput("vcpus", "4")])
            == [Row("a", map["vcpus" := "2"], false, false), Row("b", map["vcpus" := "4"], false, true)]
  {
    ParseFloatNatToString(2);
    ParseFloatNatToString(4);
    assert NatToString(2) == "2";
    assert NatToString(4) == "4";
    var rows := [Row("a", map["vcpus" := "2"], false, true), Row("b", map["vcpus" := "4"], false, false)];
    var f := FilterInput("vcpus", "4");
    assert [f][..0] == [];
    assert Fails(rows[0], f);
    assert !Fails(rows[1], f);
  }

  // ---------------------------------------------------------------------------
  // The threshold settings

  /** The settings key a threshold is recorded under: every `-` of the input's type becomes `_`. */
  function ThresholdKey(kind: string): string
  {
    "min_" + ReplaceAll(kind, '-', '_')
  }

  /** The corrected key is `min_` and the type, with no `-` left in it. */
  lemma ThresholdKeyShape(kind: string)
    ensures |ThresholdKey(kind)| == 4 + |kind| && ThresholdKey(kind)[..4] == "min_"
    ensures '-' !in ThresholdKey(kind)
    ensures forall i :: 0 <= i < |kind| && kind[i] != '-' ==> ThresholdKey(kind)[4 + i] == kind[i]
  {
    var k := ThresholdKey(kind);
    assert forall i :: 0 <= i < 4 ==> k[i] == "min_"[i];
    assert forall i :: 0 <= i < |kind| ==> k[4 + i] == (if kind[i] == '-' then '_' else kind[i]);
  }

  /**
   * The key as www/default.js:452 writes it, with `String.prototype.replace`
   * on a string pattern: only the first `-` becomes `_`.
   */
  function ThresholdKeyAsWritten(kind: string): string
  {
    "min_" + ReplaceFirst(kind, '-', '_')
  }

  lemma ReplaceFirstPerVcpu()
    ensures ReplaceFirst("memory-per-vcpu", '-', '_') == "memory_per-vcpu"
  {
    assert "memory-per-vcpu" == "memory" + ['-'] + "per-vcpu";
    ReplaceFirstAt("memory", "per-vcpu", '-', '_');
    assert "memory" + ['_'] + "per-vcpu" == "memory_per-vcpu";
  }

  lemma ReplaceAllPerVcpu()
    ensures ReplaceAll("memory-per-vcpu", '-', '_') == "memory_per_vcpu"
  {
    var tail := "-" + "vcpu";
    var middle := "per" + tail;
    var rest := "-" + middle;
    assert "memory-per-vcpu" == "memory" + rest;
    ReplaceAllConcat("memory", rest, '-', '_');
    ReplaceAllConcat("-", middle, '-', '_');
    ReplaceAllConcat("per", tail, '-', '_');
    ReplaceAllConcat("-", "vcpu", '-', '_');
    ReplaceAllWithout("memory", '-', '_');
    ReplaceAllWithout("per", '-', '_');
    ReplaceAllWithout("vcpu", '-', '_');
    assert ReplaceAll("-", '-', '_') == "_";
    assert "memory" + ("_" + ("per" + ("_" + "vcpu"))) == "memory_per_vcpu";
  }

  /** Both keys of `memory-per-vcpu`, spelled out. */
  lemma PerVcpuKeys()
    ensures ThresholdKeyAsWritten("memory-per-vcpu") == "min_memory_per-vcpu"
    ensures ThresholdKey("memory-per-vcpu") == "min_memory_per_vcpu"
  {
    ReplaceFirstPerVcpu();
    ReplaceAllPerVcpu();
    PrefixLiterals();
  }

  lemma PrefixLiterals()
    ensures "min_" + "memory_per-vcpu" == "min_memory_per-vcpu"
    ensures "min_" + "memory_per_vcpu" == "min_memory_per_vcpu"
  {
  }

  /**
   * The as-written key for `memory-per-vcpu` is `min_memory_per-vcpu`, which is
   * neither a default key nor a URL parameter, so the per-vCPU threshold is
   * never put in the address; the corrected key is `min_memory_per_vcpu`, which is both.
   */
  lemma AsWrittenLosesPerVcpuThreshold()
    ensures ThresholdKeyAsWritten("memory-per-vcpu") !in RecordKeys
    ensures ThresholdKeyAsWritten("memory-per-vcpu") !in DefaultKeys
    ensures ThresholdKey("memory-per-vcpu") in RecordKeys && ThresholdKey("memory-per-vcpu") in DefaultKeys
  {
    PerVcpuKeys();
    DashedKeyIsNoSetting();
  }

  lemma DashedKeyIsNoSetting()
    ensures "min_memory_per-vcpu" !in RecordKeys && "min_memory_per-vcpu" !in DefaultKeys
  {
    assert "min_memory_per-vcpu"[14] == '-';
    assert "min_memory_per_vcpu"[14] == '_';
  }

  /** A type without `-` is just prefixed with `min_`. */
  lemma PlainThresholdKey(kind: string)
    requires '-' !in kind
    ensures ThresholdKey(kind) == "min_" + kind
  {
    ReplaceAllWithout(kind, '-', '_');
  }

  lemma MemoryKey() ensures ThresholdKey("memory") == "min_memory" { PlainThresholdKey("memory"); }
  lemma VcpusKey() ensures ThresholdKey("vcpus") == "min_vcpus" { PlainThresholdKey("vcpus"); }
  lemma StorageKey() ensures ThresholdKey("storage") == "min_storage" { PlainThresholdKey("storage"); }

  /** The settings the four inputs' corrected keys name. */
  const ThresholdSettingKeys: seq<string> := ["min_memory", "min_vcpus", "min_memory_per_vcpu", "min_storage"]

  lemma ThresholdSettingKeysAreSettings()
    ensures forall k :: k in ThresholdSettingKeys ==> k in DefaultKeys && k in RecordKeys
  {
  }

  /** Every input's corrected key is one of the settings the defaults and the URL carry. */
  lemma ThresholdKeysAreSettings(kind: string)
    requires kind in FilterKinds
    ensures ThresholdKey(kind) in ThresholdSettingKeys
    ensures ThresholdKey(kind) in DefaultKeys && ThresholdKey(kind) in RecordKeys
  {
    ThresholdSettingKeysAreSettings();
    if kind == "memory" {
      MemoryKey();
    } else if kind == "vcpus" {
      VcpusKey();
    } else if kind == "memory-per-vcpu" {
      PerVcpuKeys();
    } else {
      StorageKey();
    }
  }

  /** For a type with at most one `-` the two keys agree. */
  lemma AsWrittenAgreesWithOneDash(kind: string)
    requires forall i, j :: 0 <= i < j < |kind| ==> !(kind[i] == '-' && kind[j] == '-')
    ensures ThresholdKeyAsWritten(kind) == ThresholdKey(kind)
  {
    ReplaceFirstSpec(kind, '-', '_');
    var a := ReplaceFirst(kind, '-', '_');
    var b := ReplaceAll(kind, '-', '_');
    assert forall i :: 0 <= i < |kind| ==> a[i] == b[i];
    assert a == b;
  }

  /**
   * `g_settings[key] = filter_val` for every input, in order, where `keyOf`
   * turns the input's type into the settings key: `ThresholdKeyAsWritten` is
   * line 452 as written, `ThresholdKey` its correction.
   */
  function ThresholdPairs(filters: seq<FilterInput>, keyOf: string -> string): seq<(string, Value)>
  {
    seq(|filters|, j requires 0 <= j < |filters| => (keyOf(filters[j].kind), Num(Threshold(filters[j].text))))
  }

  /** The settings after the inputs' thresholds have been recorded under `keyOf` of their types. */
  function ThresholdSettings(settings: Settings, filters: seq<FilterInput>, keyOf: string -> string): Settings
  {
    ApplyPairs(settings, ThresholdPairs(filters, keyOf))
  }

  /**
   * The last input whose type gives a key decides that setting, as a number;
   * this holds for the key as written and for the corrected one.
   */
  lemma ThresholdRecorded(settings: Settings, filters: seq<FilterInput>, keyOf: string -> string, i: nat)
    requires i < |filters|
    requires forall j :: i < j < |filters| ==> keyOf(filters[j].kind) != keyOf(filters[i].kind)
    ensures Get(ThresholdSettings(settings, filters, keyOf), keyOf(filters[i].kind)) == Num(Threshold(filters[i].text))
  {
    ApplyPairsLastWins(settings, ThresholdPairs(filters, keyOf), i);
  }

  /** A setting that no input's type gives as its key keeps its value. */
  lemma ThresholdUntouched(settings: Settings, filters: seq<FilterInput>, keyOf: string -> string, k: string)
    requires forall j :: 0 <= j < |filters| ==> keyOf(filters[j].kind) != k
    ensures Get(ThresholdSettings(settings, filters, keyOf), k) == Get(settings, k)
  {
    ApplyPairsUntouched(settings, ThresholdPairs(filters, keyOf), k);
  }

  /**
   * Line 452 as written, for a `memory-per-vcpu` input holding `t`: the
   * threshold lands in `min_memory_per-vcpu`, and the setting
   * `min_memory_per_vcpu` that the address and the input read keeps its old value.
   */
  lemma AsWrittenPerVcpuInput(settings: Settings, t: string)
    ensures Get(ThresholdSettings(settings, [FilterInput("memory-per-vcpu", t)], ThresholdKeyAsWritten), "min_memory_per-vcpu")
            == Num(Threshold(t))
    ensures Get(ThresholdSettings(settings, [FilterInput("memory-per-vcpu", t)], ThresholdKeyAsWritten), "min_memory_per_vcpu")
            == Get(settings, "min_memory_per_vcpu")
  {
    var filters := [FilterInput("memory-per-vcpu", t)];
    PerVcpuKeys();
    DashedKeyIsNoSetting();
    ThresholdRecorded(settings, filters, ThresholdKeyAsWritten, 0);
    ThresholdUntouched(settings, filters, ThresholdKeyAsWritten, "min_memory_per_vcpu");
  }

  /** The corrected key, for the same input: the threshold lands in `min_memory_per_vcpu`. */
  lemma CorrectedPerVcpuInput(settings: Settings, t: string)
    ensures Get(ThresholdSettings(settings, [FilterInput("memory-per-vcpu", t)], ThresholdKey), "min_memory_per_vcpu")
            == Num(Threshold(t))
  {
    PerVcpuKeys();
    ThresholdRecorded(settings, [FilterInput("memory-per-vcpu", t)], ThresholdKey, 0);
  }

  // ---------------------------------------------------------------------------
  // Compare view

  /**
   * `update_visible_rows`: with compare off every row is shown; with it on,
   * every row that is not highlighted is hidden and highlighted rows are left as they were.
   */
  function CompareApplied(rows: seq<Row>, compareOn: bool): (r: seq<Row>)
    ensures |r| == |rows|
    ensures forall i :: 0 <= i < |rows| ==> r[i].(shown := rows[i].shown) == rows[i]
  {
    seq(|rows|, i requires 0 <= i < |rows| =>
      if !compareOn then rows[i].(shown := true)
      else if rows[i].highlight then rows[i]
      else rows[i].(shown := false))
  }

  /** With compare on, a row is shown exactly when it is highlighted and was shown; with it off, always. */
  lemma CompareShownIff(rows: seq<Row>, compareOn: bool, i: nat)
    requires i < |rows|
    ensures CompareApplied(rows, compareOn)[i].shown
            <==> !compareOn || (rows[i].highlight && rows[i].shown)
  {
  }

  /** Applying the compare view twice is the same as applying it once. */
  lemma CompareIdempotent(rows: seq<Row>, compareOn: bool)
    ensures CompareApplied(CompareApplied(rows, compareOn), compareOn) == CompareApplied(rows, compareOn)
  {
  }

  /** Turning compare off shows every row again, also those the minimum values hid. */
  lemma CompareOffUndoesMinValues(rows: seq<Row>, filters: seq<FilterInput>)
    ensures CompareApplied(MinValuesApplied(rows, filters), false) == ShowAll(rows)
  {
    var a := CompareApplied(MinValuesApplied(rows, filters), false);
    assert forall i :: 0 <= i < |rows| ==> a[i] == rows[i].(shown := true);
  }

  /** With the filters and then compare on, a row is shown iff it is highlighted and meets every threshold. */
  lemma CompareAfterMinValues(rows: seq<Row>, filters: seq<FilterInput>, i: nat)
    requires i < |rows|
    ensures CompareApplied(MinValuesApplied(rows, filters), true)[i].shown
            <==> rows[i].highlight && forall j :: 0 <= j < |filters| ==> !Fails(rows[i], filters[j])
  {
    MinValuesShownIff(rows, filters, i);
  }

  // ---------------------------------------------------------------------------
  // Highlighted rows

  /** `$('#data tbody tr.highlight').map(...)`: the ids of the highlighted rows, in table order. */
  function HighlightedIds(rows: seq<Row>): (ids: seq<string>)
    ensures |ids| <= |rows|
  {
    if rows == [] then []
    else
      var last := rows[|rows| - 1];
      HighlightedIds(rows[..|rows| - 1]) + (if last.highlight then [last.id] else [])
  }

  /** An id is listed exactly when some highlighted row has it. */
  lemma {:induction false} HighlightedIdsExactly(rows: seq<Row>, id: string)
    ensures id in HighlightedIds(rows) <==> exists i :: 0 <= i < |rows| && rows[i].highlight && rows[i].id == id
    decreases |rows|
  {
    if rows != [] {
      var front := rows[..|rows| - 1];
      HighlightedIdsExactly(front, id);
      assert forall i :: 0 <= i < |front| ==> front[i] == rows[i];
    }
  }

  /** Two tables that differ only in visibility list the same highlighted ids. */
  lemma {:induction false} HighlightedIdsIgnoreVisibility(a: seq<Row>, b: seq<Row>)
    requires |a| == |b|
    requires forall i :: 0 <= i < |a| ==> a[i].(shown := b[i].shown) == b[i]
    ensures HighlightedIds(a) == HighlightedIds(b)
    decreases |a|
  {
    if a != [] {
      HighlightedIdsIgnoreVisibility(a[..|a| - 1], b[..|b| - 1]);
    }
  }

  /** `clear_row_selections`: every row loses its highlight. */
  function ClearHighlights(rows: seq<Row>): (r: seq<Row>)
    ensures |r| == |rows|
    ensures forall i :: 0 <= i < |rows| ==> !r[i].highlight && r[i].(highlight := rows[i].highlight) == rows[i]
  {
    seq(|rows|, i requires 0 <= i < |rows| => rows[i].(highlight := false))
  }

  /** After clearing, no row is selected any more. */
  lemma {:induction false} ClearedHasNoSelection(rows: seq<Row>)
    ensures HighlightedIds(ClearHighlights(rows)) == []
    decreases |rows|
  {
    if rows != [] {
      var cleared := ClearHighlights(rows);
      ClearedHasNoSelection(rows[..|rows| - 1]);
      assert cleared[..|rows| - 1] == ClearHighlights(rows[..|rows| - 1]);
    }
  }
}
