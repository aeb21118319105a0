/** Loading and selecting simulation results for the gate (`_load_results` and `_select_endpoints`,
    gate.py). Result documents arrive decoded, one per file, in ascending file-name order. */
module GateLoad {
  import opened Wrappers
  import opened Text
  import opened OrderedSets
  import opened GateScores

  /** The `summary` object of a result document; a member that is absent is `None`. */
  datatype DocSummary = DocSummary(pfail: Option<real>, mode: Option<string>, replicasFile: Option<string>)

  /** A decoded result document: its summary (`None` when it is missing or not an object) and its
      endpoints, each with its reliability when one is recorded. */
  datatype ResultDoc = ResultDoc(summary: Option<DocSummary>, endpoints: map<string, Option<real>>)

  datatype ResultFile = ResultFile(path: string, doc: ResultDoc)

  /** The key a result is stored under: its failure probability and its lower-cased mode. */
  datatype RunKey = RunKey(pfail: real, mode: string)

  /** The `payloads` dictionary: its keys in insertion order, and the document stored for each. */
  datatype Payloads = Payloads(order: seq<RunKey>, docs: map<RunKey, ResultDoc>)

  predicate WellFormed(p: Payloads)
  {
    && NoDuplicates(p.order)
    && (forall k :: k in p.order ==> k in p.docs)
    && (forall k :: k in p.docs ==> k in p.order)
  }

  // ---------------------------------------------------------------------------------------------
  // Loading

  /** The mode of a result: the summary's own when it is non-empty, else the stem of the overlay
      file it names, else the stem of the result file; lower-cased. */
  function ModeOf(path: string, s: DocSummary): (mode: string)
    ensures forall i :: 0 <= i < |mode| ==> !IsUpper(mode[i])
  {
    var raw :=
      if s.mode.Some? && s.mode.value != "" then s.mode.value
      else if Stem(s.replicasFile.GetOr("")) != "" then Stem(s.replicasFile.GetOr(""))
      else Stem(path);
    Lower(raw)
  }

  /** The key of a result file, or `None` when the file is skipped because its summary is missing
      or has no failure probability. */
  function KeyOf(f: ResultFile): (k: Option<RunKey>)
    ensures k.None? <==> f.doc.summary.None? || f.doc.summary.value.pfail.None?
    ensures k.Some? ==> k.value == RunKey(f.doc.summary.value.pfail.value, ModeOf(f.path, f.doc.summary.value))
  {
    match f.doc.summary
    case None => None
    case Some(s) => if s.pfail.None? then None else Some(RunKey(s.pfail.value, ModeOf(f.path, s)))
  }

  /** `payloads[key] = data`: a new key goes last, an existing one keeps its place. */
  function Store(p: Payloads, k: RunKey, d: ResultDoc): Payloads
  {
    Payloads(AppendNew(p.order, k), p.docs[k := d])
  }

  /** The payloads after the given files, in order. */
  function Loaded(files: seq<ResultFile>): (p: Payloads)
    ensures WellFormed(p)
  {
    if files == [] then Payloads([], map[])
    else
      var p := Loaded(files[..|files| - 1]);
      var f := files[|files| - 1];
      match KeyOf(f)
      case None => p
      case Some(k) => Store(p, k, f.doc)
  }

  /** `_load_results` over the files in ascending name order. */
  method LoadResults(files: seq<ResultFile>) returns (p: Payloads)
    ensures p == Loaded(files)
  {
    var order: seq<RunKey> := [];
    var docs: map<RunKey, ResultDoc> := map[];
    for i := 0 to |files|
      invariant Payloads(order, docs) == Loaded(files[..i])
    {
      assert files[..i + 1][..i] == files[..i];
      var summary := files[i].doc.summary;
      if summary.None? || summary.value.pfail.None? {
        continue;
      }
      var pfail := summary.value.pfail.value;
      var mode := summary.value.mode;
      var raw: string;
      if mode.Some? && mode.value != "" {
        raw := mode.value;
      } else {
        raw := Stem(summary.value.replicasFile.GetOr(""));
        if raw == "" {
          raw := Stem(files[i].path);
        }
      }
      var key := RunKey(pfail, Lower(raw));
      if key !in order {
        order := order + [key];
      }
      docs := docs[key := files[i].doc];
    }
    assert files[..|files|] == files;
    p := Payloads(order, docs);
  }

  /** The keys of the admitted files, in file order, repeats included. */
  function AdmittedKeys(files: seq<ResultFile>): seq<RunKey>
  {
    if files == [] then []
    else
      var f := files[|files| - 1];
      AdmittedKeys(files[..|files| - 1]) + (if KeyOf(f).Some? then [KeyOf(f).value] else [])
  }

  /** The stored keys are the admitted keys, each once, in the order in which they first appeared. */
  lemma {:induction false} LoadedOrder(files: seq<ResultFile>)
    ensures Loaded(files).order == Dedup(AdmittedKeys(files))
  {
    if files != [] {
      var init, f := files[..|files| - 1], files[|files| - 1];
      LoadedOrder(init);
      var key := KeyOf(f);
      if key.Some? {
        assert Loaded(files).order == AppendNew(Loaded(init).order, key.value);
        assert AdmittedKeys(files) == AdmittedKeys(init) + [key.value];
        DedupAppend(AdmittedKeys(init), key.value);
      } else {
        assert Loaded(files) == Loaded(init);
        assert AdmittedKeys(files) == AdmittedKeys(init);
      }
    }
  }

  predicate Admitted(files: seq<ResultFile>, i: int, k: RunKey)
    requires 0 <= i < |files|
  {
    KeyOf(files[i]) == Some(k)
  }

  /** A key is stored exactly when some file was admitted under it. */
  lemma {:induction false} LoadedKeys(files: seq<ResultFile>, k: RunKey)
    ensures k in Loaded(files).docs <==> exists i :: 0 <= i < |files| && Admitted(files, i, k)
  {
    if files != [] {
      var init := files[..|files| - 1];
      LoadedKeys(init, k);
      AdmittedSplit(files, k);
      assert k in Loaded(files).docs <==> k in Loaded(init).docs || KeyOf(files[|files| - 1]) == Some(k);
    }
  }

  /** A key is admitted among the files exactly when it is admitted among all but the last one or
      the last one is admitted under it. */
  lemma AdmittedSplit(files: seq<ResultFile>, k: RunKey)
    requires files != []
    ensures var init := files[..|files| - 1];
            (exists i :: 0 <= i < |files| && Admitted(files, i, k)) <==>
            (exists i :: 0 <= i < |init| && Admitted(init, i, k)) || KeyOf(files[|files| - 1]) == Some(k)
  {
    var init := files[..|files| - 1];
    var last := |files| - 1;
    if KeyOf(files[last]) == Some(k) {
      assert Admitted(files, last, k);
    }
    if exists i :: 0 <= i < |files| && Admitted(files, i, k) {
      var i :| 0 <= i < |files| && Admitted(files, i, k);
      if i < last {
        assert Admitted(init, i, k);
      }
    }
    if exists i :: 0 <= i < |init| && Admitted(init, i, k) {
      var i :| 0 <= i < |init| && Admitted(init, i, k);
      assert Admitted(files, i, k);
    }
  }

  /** When two files share a key, the later one in name order is the one kept. */
  lemma {:induction false} LastFileWins(files: seq<ResultFile>, i: nat, k: RunKey)
    requires i < |files| && Admitted(files, i, k)
    requires forall j :: i < j < |files| ==> !Admitted(files, j, k)
    ensures k in Loaded(files).docs && Loaded(files).docs[k] == files[i].doc
  {
    var init := files[..|files| - 1];
    var last := |files| - 1;
    LoadedStep(files);
    if i < last {
      forall j | i < j < |init| ensures !Admitted(init, j, k) {
        assert !Admitted(files, j, k);
      }
      assert Admitted(init, i, k);
      LastFileWins(init, i, k);
      assert !Admitted(files, last, k);
      if KeyOf(files[last]).Some? {
        StoreKeepsOthers(Loaded(init), KeyOf(files[last]).value, files[last].doc, k);
      }
    }
  }

  /** One more file either leaves the payloads alone or stores its document under its key. */
  lemma LoadedStep(files: seq<ResultFile>)
    requires files != []
    ensures var init, f := files[..|files| - 1], files[|files| - 1];
            Loaded(files) == if KeyOf(f).Some? then Store(Loaded(init), KeyOf(f).value, f.doc) else Loaded(init)
  {
  }

  /** Storing under one key leaves the document stored under any other key as it was. */
  lemma StoreKeepsOthers(p: Payloads, k: RunKey, d: ResultDoc, other: RunKey)
    requires other in p.docs && other != k
    ensures other in Store(p, k, d).docs && Store(p, k, d).docs[other] == p.docs[other]
  {
  }

  // ---------------------------------------------------------------------------------------------
  // Selection

  /** No selected endpoint has an empty series. */
  predicate NonEmptySeries(sel: map<string, seq<Score>>)
  {
    forall e :: e in sel ==> sel[e] != []
  }

  /** The pieces that are not the empty string, in order. */
  function NonBlank(pieces: seq<string>): (r: seq<string>)
    ensures forall x :: x in r <==> x in pieces && x != ""
  {
    if pieces == [] then []
    else
      var init, last := pieces[..|pieces| - 1], pieces[|pieces| - 1];
      assert pieces == init + [last];
      NonBlank(init) + (if last != "" then [last] else [])
  }

  /** Dropping blanks keeps the order: the pieces of a concatenation are those of its two halves, in turn. */
  lemma {:induction false} NonBlankAppend(a: seq<string>, b: seq<string>)
    ensures NonBlank(a + b) == NonBlank(a) + NonBlank(b)
    decreases |b|
  {
    if b == [] {
      assert a + b == a;
    } else {
      var init, last := b[..|b| - 1], b[|b| - 1];
      assert (a + b)[..|a + b| - 1] == a + init;
      assert (a + b)[|a + b| - 1] == last;
      NonBlankAppend(a, init);
    }
  }

  function StripAll(pieces: seq<string>): (r: seq<string>)
    ensures |r| == |pieces| && forall i :: 0 <= i < |pieces| ==> r[i] == Strip(pieces[i])
  {
    seq(|pieces|, i requires 0 <= i < |pieces| => Strip(pieces[i]))
  }

  /** The endpoint filters, each stripped, blanks dropped. */
  function NormalizeFilters(filters: seq<string>): seq<string>
  {
    NonBlank(StripAll(filters))
  }

  lemma NormalizeFiltersMembers(filters: seq<string>, f: string)
    ensures f in NormalizeFilters(filters) <==> f != "" && exists i :: 0 <= i < |filters| && Strip(filters[i]) == f
  {
    var stripped := StripAll(filters);
    if f in stripped {
      var i :| 0 <= i < |stripped| && stripped[i] == f;
    }
    if exists i :: 0 <= i < |filters| && Strip(filters[i]) == f {
      var i :| 0 <= i < |filters| && Strip(filters[i]) == f;
      assert stripped[i] == f;
    }
  }

  /** The requested results mode, lower-cased; absent when it is absent or empty. */
  function NormalizeMode(resultsMode: Option<string>): (r: Option<string>)
    ensures r.Some? <==> resultsMode.Some? && resultsMode.value != ""
    ensures r.Some? ==> r.value == Lower(resultsMode.value)
  {
    if resultsMode.Some? && resultsMode.value != "" then Some(Lower(resultsMode.value)) else None
  }

  /** Does the (normalised) filter list admit the endpoint? An empty list admits every endpoint. */
  predicate Admits(filters: seq<string>, e: string)
  {
    filters == [] || e in filters
  }

  /** Does the stored result belong to the (normalised) requested mode? No mode admits every result. */
  predicate ModeMatches(mode: Option<string>, k: RunKey)
  {
    mode.None? || k.mode == mode.value
  }

  /** The pair a stored result contributes for an endpoint; a missing reliability counts 1.0. */
  function ScoreOf(k: RunKey, d: ResultDoc, e: string): Score
  {
    Score(k.pfail, Get(d.endpoints, e, None).GetOr(1.0))
  }

  function ScoresFrom(k: RunKey, d: ResultDoc): string -> Score
  {
    e => ScoreOf(k, d, e)
  }

  /** The endpoints among `keys` that the filters admit. */
  function AdmittedIn(keys: set<string>, filters: seq<string>): (r: set<string>)
    ensures forall x :: x in r <==> x in keys && Admits(filters, x)
  {
    set x | x in keys && Admits(filters, x)
  }

  /** The selection after the endpoints in `keys` of one stored result have been visited: each
      admitted endpoint gets one more entry at the end of its series. */
  function AddResult(sel: map<string, seq<Score>>, k: RunKey, d: ResultDoc, filters: seq<string>, keys: set<string>): (r: map<string, seq<Score>>)
    ensures NonEmptySeries(sel) ==> NonEmptySeries(r)
  {
    Appended(sel, AdmittedIn(keys, filters), ScoresFrom(k, d))
  }

  lemma AddResultNone(sel: map<string, seq<Score>>, k: RunKey, d: ResultDoc, filters: seq<string>)
    ensures AddResult(sel, k, d, filters, {}) == sel
  {
    assert AdmittedIn({}, filters) == {};
    AppendedNone(sel, ScoresFrom(k, d));
  }

  /** Visiting one more endpoint appends at most one pair, to that endpoint's series only. */
  lemma AddResultStep(sel: map<string, seq<Score>>, k: RunKey, d: ResultDoc, filters: seq<string>, keys: set<string>, e: string)
    requires e !in keys
    ensures var m := AddResult(sel, k, d, filters, keys);
            AddResult(sel, k, d, filters, keys + {e}) ==
              if Admits(filters, e) then m[e := Get(m, e, []) + [ScoreOf(k, d, e)]] else m
  {
    var admitted := AdmittedIn(keys, filters);
    if Admits(filters, e) {
      assert AdmittedIn(keys + {e}, filters) == admitted + {e};
      AppendedStep(sel, admitted, ScoresFrom(k, d), e);
    } else {
      assert AdmittedIn(keys + {e}, filters) == admitted;
    }
  }

  /** The selection after the stored results listed in `order` have been visited. */
  function Selection(p: Payloads, order: seq<RunKey>, filters: seq<string>, mode: Option<string>): (r: map<string, seq<Score>>)
    requires forall i :: 0 <= i < |order| ==> order[i] in p.docs
    ensures NonEmptySeries(r)
  {
    if order == [] then map[]
    else
      var k := order[|order| - 1];
      var sel := Selection(p, order[..|order| - 1], filters, mode);
      if ModeMatches(mode, k) then AddResult(sel, k, p.docs[k], filters, p.docs[k].endpoints.Keys) else sel
  }

  /** What `_select_endpoints` returns for the payloads, the raw filters and the raw mode. */
  function Select(p: Payloads, filters: seq<string>, resultsMode: Option<string>): (r: map<string, seq<Score>>)
    requires WellFormed(p)
    ensures NonEmptySeries(r)
  {
    Selection(p, p.order, NormalizeFilters(filters), NormalizeMode(resultsMode))
  }

  /** The inner loop of `_select_endpoints`: every admitted endpoint of one stored result gets that
      result's pair appended to its series. */
  method AddEndpoints(sel: map<string, seq<Score>>, key: RunKey, data: ResultDoc, filters: seq<string>) returns (selected: map<string, seq<Score>>)
    ensures selected == AddResult(sel, key, data, filters, data.endpoints.Keys)
  {
    selected := sel;
    AddResultNone(sel, key, data, filters);
    var rest := data.endpoints.Keys;
    while rest != {}
      invariant rest <= data.endpoints.Keys
      invariant selected == AddResult(sel, key, data, filters, data.endpoints.Keys - rest)
      decreases rest
    {
      var endpoint :| endpoint in rest;
      ghost var done := data.endpoints.Keys - rest;
      AddResultStep(sel, key, data, filters, done, endpoint);
      if filters == [] || endpoint in filters {
        var reliability := data.endpoints[endpoint].GetOr(1.0);
        assert Score(key.pfail, reliability) == ScoreOf(key, data, endpoint);
        selected := selected[endpoint := Get(selected, endpoint, []) + [Score(key.pfail, reliability)]];
      }
      rest := rest - {endpoint};
      assert data.endpoints.Keys - rest == done + {endpoint};
    }
    assert data.endpoints.Keys - rest == data.endpoints.Keys;
  }

  /** `_select_endpoints`: for every stored result of the requested mode, in insertion order,
      append its pair to the series of every admitted endpoint. */
  method SelectEndpoints(p: Payloads, filters: seq<string>, resultsMode: Option<string>) returns (selected: map<string, seq<Score>>)
    requires WellFormed(p)
    ensures selected == Select(p, filters, resultsMode)
  {
    var normalizedFilters := NormalizeFilters(filters);
    var normalizedMode := NormalizeMode(resultsMode);
    selected := map[];
    for i := 0 to |p.order|
      invariant selected == Selection(p, p.order[..i], normalizedFilters, normalizedMode)
    {
      PrefixStep(p.order, i);
      var key := p.order[i];
      if normalizedMode.Some? && key.mode != normalizedMode.value {
        continue;
      }
      selected := AddEndpoints(selected, key, p.docs[key], normalizedFilters);
    }
    assert p.order[..|p.order|] == p.order;
  }

  // ---------------------------------------------------------------------------------------------
  // What the selection holds

  /** The series of one endpoint: one pair per visited result of the requested mode that lists the
      endpoint, provided the filters admit it, in visiting order. */
  function SeriesOf(p: Payloads, order: seq<RunKey>, filters: seq<string>, mode: Option<string>, e: string): seq<Score>
    requires forall i :: 0 <= i < |order| ==> order[i] in p.docs
  {
    if order == [] then []
    else
      var k := order[|order| - 1];
      SeriesOf(p, order[..|order| - 1], filters, mode, e) +
        (if ModeMatches(mode, k) && e in p.docs[k].endpoints && Admits(filters, e) then [ScoreOf(k, p.docs[k], e)] else [])
  }

  /** An endpoint is selected exactly when its series is non-empty, and then it holds that series. */
  lemma {:induction false} SelectionSeries(p: Payloads, order: seq<RunKey>, filters: seq<string>, mode: Option<string>, e: string)
    requires forall i :: 0 <= i < |order| ==> order[i] in p.docs
    ensures e in Selection(p, order, filters, mode) <==> SeriesOf(p, order, filters, mode, e) != []
    ensures e in Selection(p, order, filters, mode) ==> Selection(p, order, filters, mode)[e] == SeriesOf(p, order, filters, mode, e)
  {
    if order != [] {
      SelectionSeries(p, order[..|order| - 1], filters, mode, e);
    }
  }

  /** Each pair of a series comes from a result of the requested mode that lists the endpoint. */
  lemma {:induction false} SeriesSources(p: Payloads, order: seq<RunKey>, filters: seq<string>, mode: Option<string>, e: string, j: nat)
    requires forall i :: 0 <= i < |order| ==> order[i] in p.docs
    requires j < |SeriesOf(p, order, filters, mode, e)|
    ensures Admits(filters, e)
    ensures exists i :: 0 <= i < |order| && ModeMatches(mode, order[i]) && e in p.docs[order[i]].endpoints &&
                        SeriesOf(p, order, filters, mode, e)[j] == ScoreOf(order[i], p.docs[order[i]], e)
  {
    var init := order[..|order| - 1];
    var k := order[|order| - 1];
    var s0 := SeriesOf(p, init, filters, mode, e);
    if j < |s0| {
      SeriesSources(p, init, filters, mode, e, j);
      var i :| 0 <= i < |init| && ModeMatches(mode, init[i]) && e in p.docs[init[i]].endpoints &&
               s0[j] == ScoreOf(init[i], p.docs[init[i]], e);
      assert init[i] == order[i];
    } else {
      assert order[|order| - 1] == k;
    }
  }

  lemma {:induction false} SeriesPresent(p: Payloads, order: seq<RunKey>, filters: seq<string>, mode: Option<string>, e: string, i: nat)
    requires forall j :: 0 <= j < |order| ==> order[j] in p.docs
    requires i < |order| && ModeMatches(mode, order[i]) && e in p.docs[order[i]].endpoints && Admits(filters, e)
    ensures SeriesOf(p, order, filters, mode, e) != []
  {
    if i < |order| - 1 {
      var init := order[..|order| - 1];
      assert init[i] == order[i];
      SeriesPresent(p, init, filters, mode, e, i);
    }
  }

  /** An endpoint is selected exactly when the filters admit it and some stored result of the
      requested mode lists it. */
  lemma SelectedExactly(p: Payloads, filters: seq<string>, resultsMode: Option<string>, e: string)
    requires WellFormed(p)
    ensures e in Select(p, filters, resultsMode) <==>
            Admits(NormalizeFilters(filters), e) &&
            exists k :: k in p.docs && ModeMatches(NormalizeMode(resultsMode), k) && e in p.docs[k].endpoints
  {
    var nf, nm := NormalizeFilters(filters), NormalizeMode(resultsMode);
    SelectionSeries(p, p.order, nf, nm, e);
    if e in Select(p, filters, resultsMode) {
      SeriesSources(p, p.order, nf, nm, e, 0);
    }
    if Admits(nf, e) && exists k :: k in p.docs && ModeMatches(nm, k) && e in p.docs[k].endpoints {
      var k :| k in p.docs && ModeMatches(nm, k) && e in p.docs[k].endpoints;
      var i :| 0 <= i < |p.order| && p.order[i] == k;
      SeriesPresent(p, p.order, nf, nm, e, i);
    }
  }
}
