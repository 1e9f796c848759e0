/**
 * The `/analyze` request: the catalogue of trackable features, and the
 * history of distinct values kept for each selected feature that occurs
 * in the uploaded log.
 */
module Analysis {
  import opened BlockDecoder
  import opened ChangeTracker
  import opened LogParser

  /** One catalogue row: the pattern searched for, whether its match is a
      brace block to decode, and the category it is listed under. */
  datatype Feature = Feature(pattern: string, isBlock: bool, category: string)

  /** The catalogue, keyed by the feature names the upload form submits. */
  const FeatureDatabase: map<string, Feature> := map[
    "cell_barred" := Feature(@"cellBarredNTN-r17\s+(\w+)", false, "General"),
    "nr_band" := Feature(@"freqBandIndicatorNR\s+(\d+)", false, "General"),
    "cell_identity" := Feature(@"cellIdentity\s+'([0-9A-Fa-f]+)'H", false, "General"),
    "ntn_config" := Feature(@"ntn-Config-r17\s*{(.*?)\}", true, "Feature"),
    "ephemeris_pos" := Feature(@"ephemerisInfo-r17\s+positionVelocity-r17\s*[:]?\s*\{(.*?)\}", true, "Feature"),
    "timers" := Feature(@"ue-TimersAndConstants\s*{(.*?)}", true, "Feature"),
    "scheduling" := Feature(@"schedulingRequestToAddModList\s*{(.*?)\}", true, "Feature"),
    "radioBearerConfig" := Feature(@"radioBearerConfig\s*{(.*?)\}", true, "Feature")
  ]

  /** The catalogue lists the eight features of the upload form; the block
      features, whose matches are decoded, are exactly those listed under
      "Feature", and the scalar ones those listed under "General". */
  lemma CatalogueRows()
    ensures FeatureDatabase.Keys ==
      {"cell_barred", "nr_band", "cell_identity", "ntn_config", "ephemeris_pos", "timers", "scheduling", "radioBearerConfig"}
    ensures forall name :: name in FeatureDatabase ==>
      (FeatureDatabase[name].isBlock <==> FeatureDatabase[name].category == "Feature")
    ensures forall name :: name in FeatureDatabase ==>
      (!FeatureDatabase[name].isBlock <==> FeatureDatabase[name].category == "General")
  {
  }

  /** Feature name to the distinct values it took, in log order. */
  type History = map<string, seq<DecodedValue>>

  /** The changes of one catalogue feature in `text`. */
  function FeatureChanges(finditer: Finditer, text: string, feature: Feature): (values: seq<DecodedValue>)
    ensures values == [] <==> finditer(feature.pattern, text, feature.isBlock) == []
    ensures NoAdjacentDuplicates(values)
  {
    Changes(finditer, text, feature.pattern, feature.isBlock)
  }

  /** The history built from the selected names, in order: a name that is
      in the catalogue and has at least one match gets its changes; any
      other name is passed over. */
  function Analysis(catalog: map<string, Feature>, finditer: Finditer, text: string, selected: seq<string>): (history: History)
    ensures forall key :: key in history ==> key in catalog && key in selected
  {
    if selected == [] then map[]
    else
      var before := Analysis(catalog, finditer, text, selected[..|selected| - 1]);
      var key := selected[|selected| - 1];
      if key in catalog && FeatureChanges(finditer, text, catalog[key]) != [] then
        before[key := FeatureChanges(finditer, text, catalog[key])]
      else before
  }

  /** The selection loop of `analyze`: one parser over the uploaded text,
      and for each selected catalogue feature its changes, kept when there
      are any. */
  method Analyze(text: string, finditer: Finditer, selected: seq<string>) returns (history: History)
    ensures history == Analysis(FeatureDatabase, finditer, text, selected)
  {
    var parser := new RrcLogParser(text);
    var featureDatabase := FeatureDatabase;
    history := map[];
    for i := 0 to |selected|
      invariant history == Analysis(featureDatabase, finditer, text, selected[..i])
    {
      assert selected[..i + 1][..i] == selected[..i];
      var key := selected[i];
      if key in featureDatabase {
        var item := featureDatabase[key];
        var res := parser.FetchChanges(finditer, item.pattern, item.isBlock);
        if res != [] {
          history := history[key := res];
        }
      }
    }
    assert selected[..|selected|] == selected;
  }

  /** A name is in the history exactly when it was selected, is in the
      catalogue and its pattern matches at least once; its entry is then
      that feature's changes. */
  lemma {:induction false} AnalysisEntries(catalog: map<string, Feature>, finditer: Finditer, text: string, selected: seq<string>, key: string)
    ensures var history := Analysis(catalog, finditer, text, selected);
      key in history <==>
        key in selected && key in catalog && finditer(catalog[key].pattern, text, catalog[key].isBlock) != []
    ensures var history := Analysis(catalog, finditer, text, selected);
      key in history ==> history[key] == FeatureChanges(finditer, text, catalog[key])
  {
    if selected != [] {
      var prefix := selected[..|selected| - 1];
      AnalysisEntries(catalog, finditer, text, prefix, key);
      assert selected == prefix + [selected[|selected| - 1]];
    }
  }

  /** Only which names were selected matters: neither their order nor a
      repeated selection changes the history. */
  lemma SelectionOrderIrrelevant(catalog: map<string, Feature>, finditer: Finditer, text: string, selected: seq<string>, other: seq<string>)
    requires forall key :: key in selected <==> key in other
    ensures Analysis(catalog, finditer, text, selected) == Analysis(catalog, finditer, text, other)
  {
    var a, b := Analysis(catalog, finditer, text, selected), Analysis(catalog, finditer, text, other);
    forall key | key in a || key in b
      ensures key in a && key in b && a[key] == b[key]
    {
      AnalysisEntries(catalog, finditer, text, selected, key);
      AnalysisEntries(catalog, finditer, text, other, key);
    }
    forall key ensures key in a <==> key in b {
      AnalysisEntries(catalog, finditer, text, selected, key);
      AnalysisEntries(catalog, finditer, text, other, key);
    }
  }

  /** Every history entry is a non-empty sequence of values with no two
      neighbours equal. */
  lemma HistoryEntriesAreChanges(catalog: map<string, Feature>, finditer: Finditer, text: string, selected: seq<string>, key: string)
    requires key in Analysis(catalog, finditer, text, selected)
    ensures var values := Analysis(catalog, finditer, text, selected)[key];
      values != [] && NoAdjacentDuplicates(values)
  {
    AnalysisEntries(catalog, finditer, text, selected, key);
  }
}
