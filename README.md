# Resilience demo: simulator and release gate

This project models the two programs of the social-network resilience demo.

**The simulator** (`socialNetwork/resilience-demo/simulate.py`) estimates how reliable each endpoint of the social network is when every service fails independently with one probability `pfail`. It:

- reads the service dependency graph (a list of parent/child edges, optionally with explicit entrypoints and metadata);
- reads a replica overlay (a flat `service: count` file in a tiny YAML subset);
- derives pseudo-endpoints from the edges when the graph names none;
- computes each service's reliability as `1 - pfail^replicas`, clamped;
- computes each endpoint's reliability as the product of the reliabilities of the distinct services on its path;
- summarises the run with the least and greatest endpoint reliability and a mode tag (`norepl` or `repl`).

**The release gate** (`socialNetwork/resilience-demo/gate.py`) reads the result documents of several simulator runs and keys each run by its failure probability and mode. It selects the endpoints the filters admit in the requested mode, collecting one `(pfail, reliability)` pair per run, and sorts each series by failure probability. It then decides:

- in the default "any" mode, the gate fails when some endpoint's minimum reliability is under the threshold;
- in "mean" mode, it fails when the mean of the per-endpoint minima is under the threshold.

The gate reports the violations, a statistic and a reason text, and exits with 0 or 1.

Modules:

- **Wrappers, Text, OrderedSets:** `Option`/`Result`, string helpers with the meaning of Python's `strip`, `split`, `lower`, `startswith`, `int()` and `sorted` on names, and duplicate-free sequences.
- **Overlay:** `_load_simple_yaml`.
- **Graph:** `_load_graph`.
- **Entrypoints:** `_derive_entrypoints`.
- **Reliability:** `_service_reliability` and `_path_reliability`.
- **Simulation:** `run_simulation`.
- **GateScores:** the score pairs, their stable sort by failure probability, and their minima.
- **GateLoad:** `_load_results` and `_select_endpoints`.
- **Gate:** `evaluate_gate`, `GateResult.as_dict` and `main`.

How the model is organised:

- Each loop of the source is a method with loop invariants, proved equal to a recursive specification function. The source's promises are then proved as lemmas about that function.
- Failure probabilities and reliabilities are exact reals.
- Decoded JSON documents and file contents arrive as parameters.

The selection is not always what one expects. Two result documents, at failure probabilities 0.1 and 0.2, that both carry one endpoint `/A`, at 0.9 and at 0.3, do not pass a 0.5 gate in "mean" mode:

- both pairs go into `/A`'s one series, whose minimum is 0.3, and the mean of one minimum is 0.3;
- "mean" averages across endpoints, not across runs;
- `Gate.OneEndpointTwoRuns` proves this verdict;
- `Gate.OneViolator` shows the case where "mean" mode does pass: two distinct endpoints at 0.9 and 0.3, with mean 0.6.

## Model

| member | source | states |
|---|---|---|
| Overlay.LoadSimpleYaml | socialNetwork/resilience-demo/simulate.py:29-52 | the line-by-line loader computes exactly the specified overlay load of the file's lines |
| Overlay.LoadStep | socialNetwork/resilience-demo/simulate.py:37-51 | over a loaded prefix, a blank line keeps the mapping, an entry sets its key to its count, and a bad line makes the whole load fail with its error |
| Overlay.ReadLine | socialNetwork/resilience-demo/simulate.py:38-51 | the body of the loop, written out step by step (cut at '#', strip, split at the first ':', strip, `int()`), reads each line exactly as specified: skipped, an entry, or that line's error |
| Overlay.FailsAtFirstBadLine | socialNetwork/resilience-demo/simulate.py:37-52 | loading fails iff some line is bad (no ':', empty value, non-integer value), and then with the error of the first bad line |
| Overlay.LoadedKeys | socialNetwork/resilience-demo/simulate.py:37-52 | on success the mapping's keys are exactly the keys some entry line defines |
| Overlay.LastValueWins | socialNetwork/resilience-demo/simulate.py:43-49 | a key maps to the count on the last line that defines it |
| Overlay.FoldFailureSticks | socialNetwork/resilience-demo/simulate.py:41-51 | once a prefix of the lines has failed, the rest of the file does not change the outcome |
| Overlay.ParseContent | socialNetwork/resilience-demo/simulate.py:41-42 | a non-blank line is never blank; with a ':' it is parsed as a field |
| Overlay.ParseField | socialNetwork/resilience-demo/simulate.py:43-47 | a line with ':' is never blank and never fails as an invalid line, whatever line the error would carry |
| Overlay.InvalidLineExactly | socialNetwork/resilience-demo/simulate.py:38-42 | a line fails as invalid, reporting the raw line, iff its content before '#' strips to a non-empty text without ':' |
| Overlay.MissingValueExactly | socialNetwork/resilience-demo/simulate.py:43-47 | a line fails for a missing value iff its content has ':' and the text after the first ':' strips to nothing; the error carries the stripped key |
| Overlay.NonIntegerExactly | socialNetwork/resilience-demo/simulate.py:43-51 | a line fails as non-integer iff its content has ':' and a non-empty stripped value that `int()` rejects; the error carries the stripped key |
| Overlay.ParseCount | socialNetwork/resilience-demo/simulate.py:48-51 | a value that `int()` rejects fails with the non-integer error for that key, and any other value gives the entry for that key with its integer |
| Overlay.ParseLines | socialNetwork/resilience-demo/simulate.py:37 | each line is parsed on its own, in order |
| Overlay.CommentIgnored | socialNetwork/resilience-demo/simulate.py:38 | appending a '#' comment changes nothing except the raw text an invalid-line error carries |
| Overlay.BlankLines | socialNetwork/resilience-demo/simulate.py:38-40 | a line is skipped iff its text before the first '#' is all whitespace |
| Overlay.PlainLine | socialNetwork/resilience-demo/simulate.py:43-49 | `key: value`, with a stripped key free of ':' and '#', parses as the count of `value` |
| Overlay.EntryRoundTrip | socialNetwork/resilience-demo/simulate.py:43-49 | writing `key: count` and parsing it gives back the entry `(key, count)` |
| Graph.LoadGraph | socialNetwork/resilience-demo/simulate.py:86-102 | a list gives its edges with no entrypoints and no metadata; an object gives its edges and entrypoints (default empty) and every other member as metadata; anything else fails |
| Entrypoints.DeriveEntrypoints | socialNetwork/resilience-demo/simulate.py:105-121 | the loop computes the specified derived entrypoints |
| Entrypoints.ContributionsMembers | socialNetwork/resilience-demo/simulate.py:110-120 | a service is contributed to `/parent` iff some edge with that parent names it as parent or child |
| Entrypoints.DerivedIsDedup | socialNetwork/resilience-demo/simulate.py:109-121 | `/p` is a key iff some edge contributes to it, and its list is the contributions with repeats removed |
| Entrypoints.EndpointKeys | socialNetwork/resilience-demo/simulate.py:113-116 | the keys are exactly `/parent` for the edges that have both a parent and a child |
| Entrypoints.EndpointServices | socialNetwork/resilience-demo/simulate.py:116-120 | each list has no duplicates, holds exactly the services of that parent's edges, and keeps first-seen order |
| Entrypoints.NoEdgesNoEndpoints | socialNetwork/resilience-demo/simulate.py:113-114 | nothing is derived iff no edge has both a parent and a child |
| Reliability.Clamp01 | socialNetwork/resilience-demo/simulate.py:126 | the clamp lies in [0,1] and is the identity inside it |
| Reliability.EffectiveReplicas | socialNetwork/resilience-demo/simulate.py:125 | at least one replica, and the given count when it is positive |
| Reliability.ServiceReliability | socialNetwork/resilience-demo/simulate.py:124-129 | a service's reliability is a probability |
| Reliability.ServiceReliabilityFormula | socialNetwork/resilience-demo/simulate.py:124-129 | reliability is `1 - clamp(pfail)^max(1, replicas)` |
| Reliability.NeverFails | socialNetwork/resilience-demo/simulate.py:126-129 | `pfail <= 0` gives reliability 1 |
| Reliability.AlwaysFails | socialNetwork/resilience-demo/simulate.py:126-129 | `pfail >= 1` gives reliability 0 |
| Reliability.AtLeastOneReplica | socialNetwork/resilience-demo/simulate.py:125 | a count below one behaves as one replica |
| Reliability.MonotoneInPfail | socialNetwork/resilience-demo/simulate.py:124-129 | a higher failure probability never raises reliability |
| Reliability.MonotoneInReplicas | socialNetwork/resilience-demo/simulate.py:124-129 | more replicas never lower reliability |
| Reliability.HalfFailingService | socialNetwork/resilience-demo/simulate.py:124-129 | at pfail 0.5, one replica gives 0.5 and two give 0.75 |
| Reliability.PathReliabilityOf | socialNetwork/resilience-demo/simulate.py:132-140 | a path's reliability is a probability |
| Reliability.PathReliability | socialNetwork/resilience-demo/simulate.py:132-140 | the loop with its `seen` set computes the specified path reliability |
| Reliability.RepeatIgnored | socialNetwork/resilience-demo/simulate.py:136-138 | revisiting a service already on the path changes nothing |
| Reliability.FirstOccurrencesOnly | socialNetwork/resilience-demo/simulate.py:133-140 | a path counts as its duplicate-free version |
| Reliability.RevisitedService | socialNetwork/resilience-demo/simulate.py:133-140 | `[a, b, a]` counts as `[a, b]` |
| Reliability.UnknownServiceNeutral | socialNetwork/resilience-demo/simulate.py:139 | a service without a reliability counts as 1 |
| Reliability.ProductInUnit | socialNetwork/resilience-demo/simulate.py:133-139 | with probabilities as factors, the product lies in [0,1] and under every factor |
| Reliability.WeakestLink | socialNetwork/resilience-demo/simulate.py:133-140 | a path is no more reliable than any service on it, and is the product over its distinct services |
| Reliability.LongerPathNoBetter | socialNetwork/resilience-demo/simulate.py:135-140 | extending a path never raises its reliability |
| Simulation.FillServiceReliability | socialNetwork/resilience-demo/simulate.py:159-176 | the two `setdefault` loops compute the specified service map |
| Simulation.FillFromEdges | socialNetwork/resilience-demo/simulate.py:159-172 | the loop over the edges gives every named service, at its first mention, the reliability of its own overlay count (1 when absent), which later mentions do not change |
| Simulation.FillFromOverlay | socialNetwork/resilience-demo/simulate.py:174-176 | the loop over the overlay adds each service not yet present at its own count's reliability and leaves every present service as it was |
| Simulation.EdgeReliabilitiesShape | socialNetwork/resilience-demo/simulate.py:159-172 | the first loop covers exactly the services the edges name, each at its overlay count (default 1) |
| Simulation.ServiceMapShape | socialNetwork/resilience-demo/simulate.py:159-176 | the service map covers exactly the named services and the overlay's services, and an edge-named service keeps its edge-time value |
| Simulation.Snapshot | socialNetwork/resilience-demo/simulate.py:184 | the per-endpoint snapshot has exactly the path's services, each at its reliability or 1 |
| Simulation.EvaluateEndpoints | socialNetwork/resilience-demo/simulate.py:178-185 | the loop over the entrypoints computes the specified endpoint records |
| Simulation.ScoreEndpoint | socialNetwork/resilience-demo/simulate.py:180-184 | one endpoint's record holds its services, the reliability of its path and the snapshot of its services' reliabilities |
| Simulation.EndpointRecord | socialNetwork/resilience-demo/simulate.py:179-185 | every entrypoint gets a record with its services, its path reliability and its snapshot |
| Simulation.Extremes | socialNetwork/resilience-demo/simulate.py:193-194 | the least and greatest endpoint reliability, both 1.0 when there are no endpoints |
| Simulation.SummaryOrdered | socialNetwork/resilience-demo/simulate.py:193-194 | over probabilities, `0 <= min <= max <= 1` |
| Simulation.RunSummaryOrdered | socialNetwork/resilience-demo/simulate.py:189-197 | every run's summary has `0 <= min_reliability <= max_reliability <= 1` |
| Simulation.ModeTag | socialNetwork/resilience-demo/simulate.py:187 | the tag is "norepl" iff the lower-cased overlay file stem starts with "norepl", and "repl" otherwise |
| Simulation.RunSimulation | socialNetwork/resilience-demo/simulate.py:143-204 | a negative pfail fails first, then an unsupported graph, then a bad overlay; otherwise the run succeeds and its result is the specified one (explicit entrypoints, or derived ones when there are none) |
| Simulation.TwoServiceScenario | socialNetwork/resilience-demo/simulate.py:105-185 | one edge `A -> B` with two replicas of B at pfail 0.5 gives A 0.5, B 0.75, endpoint `/A = [A, B]`, and `/A` 0.375 |
| GateScores.SortByPfail | socialNetwork/resilience-demo/gate.py:90 | the sort is a permutation of the series |
| GateScores.SortByPfailSorted | socialNetwork/resilience-demo/gate.py:90 | the sorted series is ordered by failure probability |
| GateScores.SortByPfailStable | socialNetwork/resilience-demo/gate.py:90 | the sort is stable: pairs with equal failure probability keep their order |
| GateScores.MinReliability | socialNetwork/resilience-demo/gate.py:91 | the minimum is at most every reliability and is attained |
| GateScores.MinReliabilityOfPermutation | socialNetwork/resilience-demo/gate.py:90-91 | sorting does not change the minimum |
| GateScores.FirstMinimum | socialNetwork/resilience-demo/gate.py:94 | `min(..., key=reliability)` picks the first pair attaining the minimum |
| GateLoad.ModeOf | socialNetwork/resilience-demo/gate.py:41-44 | the mode key is lower case |
| GateLoad.KeyOf | socialNetwork/resilience-demo/gate.py:37-44 | a file is skipped iff its summary or its pfail is missing; otherwise its key is `(pfail, mode)` |
| GateLoad.Loaded | socialNetwork/resilience-demo/gate.py:32-46 | the payloads keep their key order and their documents consistent, with no key twice |
| GateLoad.LoadResults | socialNetwork/resilience-demo/gate.py:32-46 | the loop computes the specified payloads |
| GateLoad.LoadedOrder | socialNetwork/resilience-demo/gate.py:34-45 | the keys are in the order of their first admitted file |
| GateLoad.LoadedKeys | socialNetwork/resilience-demo/gate.py:34-45 | a key is stored iff some file is admitted under it |
| GateLoad.LastFileWins | socialNetwork/resilience-demo/gate.py:45 | a key holds the document of the last file admitted under it |
| GateLoad.NormalizeFiltersMembers | socialNetwork/resilience-demo/gate.py:55 | a filter is kept iff it is the non-empty stripped form of some given filter |
| GateLoad.NormalizeMode | socialNetwork/resilience-demo/gate.py:56 | no mode when none or empty is given; otherwise its lower-case form |
| GateLoad.AddEndpoints | socialNetwork/resilience-demo/gate.py:61-66 | the inner loop gives each admitted endpoint of one result one more pair |
| GateLoad.Select | socialNetwork/resilience-demo/gate.py:49-68 | no selected endpoint has an empty series |
| GateLoad.SelectEndpoints | socialNetwork/resilience-demo/gate.py:49-68 | the nested loops compute the specified selection |
| GateLoad.SelectionSeries | socialNetwork/resilience-demo/gate.py:58-66 | an endpoint is selected iff its series is non-empty, and its series has one pair per matching result in payload order |
| GateLoad.SeriesSources | socialNetwork/resilience-demo/gate.py:58-66 | every pair in a series comes from a result of the requested mode that lists the endpoint, with the result's pfail and the recorded reliability (default 1.0) |
| GateLoad.SelectedExactly | socialNetwork/resilience-demo/gate.py:49-68 | an endpoint is selected iff the filters admit it and some stored result of the requested mode lists it |
| Gate.MinOf | socialNetwork/resilience-demo/gate.py:103 | the least per-endpoint minimum is a lower bound and is attained |
| Gate.MeanBetween | socialNetwork/resilience-demo/gate.py:97 | the mean of the minima lies between their least and greatest values |
| Gate.ConcludeMean | socialNetwork/resilience-demo/gate.py:96-99 | in "mean" mode the statistic is the sum of the minima over their count; it lies between the least and the greatest minimum, the gate passes iff it reaches the threshold, and it passes whenever every minimum does |
| Gate.Minima | socialNetwork/resilience-demo/gate.py:88-92 | one minimum per endpoint, in visiting order |
| Gate.ViolationsOf | socialNetwork/resilience-demo/gate.py:93-94 | each violation is a visited endpoint whose minimum is under the threshold, with its first minimal pair |
| Gate.ViolationsComplete | socialNetwork/resilience-demo/gate.py:93-94 | every visited endpoint under the threshold is a violation |
| Gate.ViolationsSorted | socialNetwork/resilience-demo/gate.py:105-109 | visiting names in sorted order lists violations in sorted order |
| Gate.ViolationsOfListed | socialNetwork/resilience-demo/gate.py:89-94 | over endpoints visited in name order, an endpoint is recorded iff its minimum is under the threshold, records are in name order, and each holds the first pair of its sorted series with the minimal reliability |
| Gate.ShownMode | socialNetwork/resilience-demo/gate.py:81-84 | the skip message names the results mode iff one was given |
| Gate.EvaluateGate | socialNetwork/resilience-demo/gate.py:71-112 | loading, selection and judgement compute the specified gate result |
| Gate.Judge | socialNetwork/resilience-demo/gate.py:87-103 | the loop that sorts each series, collects minima and records violations computes the specified decision |
| Gate.VisitAll | socialNetwork/resilience-demo/gate.py:87-94 | the loop sorts each visited series in place, collects one minimum per endpoint in visiting order and records exactly the violations, as specified |
| Gate.SkippedExactlyWhenEmpty | socialNetwork/resilience-demo/gate.py:80-85 | the gate is skipped iff nothing was selected, and then it passes with empty scores |
| Gate.ReportedSeries | socialNetwork/resilience-demo/gate.py:89-112 | the reported scores are the selected series, each sorted by pfail, stably, with the same pairs |
| Gate.ViolationsExactly | socialNetwork/resilience-demo/gate.py:87-109 | an endpoint is a violation iff its minimum is under the threshold; violations are in name order; each carries the first minimal pair of its sorted series |
| Gate.AnyModeVerdict | socialNetwork/resilience-demo/gate.py:100-103 | outside "mean" mode the gate passes iff every endpoint's minimum reaches the threshold, iff the least minimum does; the statistic is that least minimum |
| Gate.MeanModeVerdict | socialNetwork/resilience-demo/gate.py:87-99 | in "mean" mode the statistic is the mean of the selection's per-endpoint minima (`Gate.SelectionMinima`), the gate passes iff it reaches the threshold, and it lies between the least and greatest minima |
| Gate.SelectionMinima | socialNetwork/resilience-demo/gate.py:88-92 | one minimum per selected endpoint, in name order, each the least reliability of that endpoint's series |
| Gate.MeanToleratesMore | socialNetwork/resilience-demo/gate.py:96-103 | whatever passes the default mode also passes "mean" mode |
| Gate.SingleEndpoint | socialNetwork/resilience-demo/gate.py:87-99 | with one endpoint, its minimum is the only one, the mean is that minimum, and it is a violation iff under the threshold |
| Gate.OneEndpointTwoRuns | socialNetwork/resilience-demo/gate.py:87-99 | `/A` recorded at 0.9 and at 0.3 with threshold 0.5: "mean" mode fails with mean 0.3, naming `/A` with its worst run |
| Gate.OrderedPair | socialNetwork/resilience-demo/gate.py:90 | two runs already in failure-probability order are left as they are by the sort |
| Gate.OneViolator | socialNetwork/resilience-demo/gate.py:87-110 | `/A` at 0.9 and `/B` at 0.3 with threshold 0.5: "any" fails naming `/B` with minimum 0.3; "mean" passes with mean 0.6 |
| Gate.ReasonTextOpening | socialNetwork/resilience-demo/gate.py:80-110 | the reason text starts with "No endpoints matched the filters", "Violations: ", "mean reliability=" or "min reliability=" exactly in the corresponding case |
| Gate.AsDictRoundTrip | socialNetwork/resilience-demo/gate.py:18-29 | the dictionary form keeps the verdict, the reason and every series pair by pair, in order |
| GateLoad.NonBlankAppend | socialNetwork/resilience-demo/gate.py:128 | dropping blank pieces keeps the order: the result for a concatenation is the results for its halves, concatenated |
| Gate.SplitFilters | socialNetwork/resilience-demo/gate.py:128 | the filters are exactly the non-empty comma-separated pieces of the argument |
| Gate.SplitFiltersJoin | socialNetwork/resilience-demo/gate.py:128 | joining non-empty comma-free filters with ',' and splitting gives them back |
| Gate.FiltersFromArgument | socialNetwork/resilience-demo/gate.py:128 | the filters applied are exactly the non-empty stripped pieces between commas |
| Gate.NormalizeResultsMode | socialNetwork/resilience-demo/gate.py:129 | no results mode iff the argument is all whitespace; otherwise it is non-empty, stripped and lower case |
| Gate.ResultsModeNormalisedOnce | socialNetwork/resilience-demo/gate.py:129 | the selection's own normalisation leaves the command line's results mode unchanged |
| Gate.GateMain | socialNetwork/resilience-demo/gate.py:126-146 | with the defaults "any", "norepl" and "" applied, exit status 0 iff the gate passed and 1 iff it failed; the message is the reason text; the summary carries the arguments, the verdict and the scores |
| Text.Lower | socialNetwork/resilience-demo/gate.py:44 | `lower()` on ASCII: same length, each upper-case letter becomes its own lower-case letter, every other character is kept |
| Text.Strip | socialNetwork/resilience-demo/simulate.py:38 | `strip()` leaves no outer whitespace, is empty iff the text is whitespace, and keeps stripped text unchanged |
| Text.JoinSplit | socialNetwork/resilience-demo/gate.py:128 | joining the pieces of a split gives back the text |
| Text.ParseShowInt | socialNetwork/resilience-demo/simulate.py:49 | `int()` reads back every printed integer |
| Text.SortNames | socialNetwork/resilience-demo/gate.py:108 | the loop that repeatedly takes the least name produces the names in strictly increasing order |
| OrderedSets.DedupFirstSeenOrder | socialNetwork/resilience-demo/simulate.py:117-120 | removing repeats keeps elements in order of first appearance |

## Left out

Simulator:

- **Jaeger refresh:** `_fetch_graph_from_jaeger` and the `JAEGER_URL` lookup are left out; they are network I/O.
- **Files and JSON:** reading files, JSON decoding and writing the result file are left out. The graph, the overlay's lines and the result documents arrive decoded.
- **Overlay lines:** `splitlines()` is left out; the overlay arrives as its sequence of lines.
- **Timestamp:** the summary's `timestamp` is left out; it reads a clock. `replicas_file` is the overlay path as given.
- **Arithmetic:** reliabilities and failure probabilities are exact reals, not IEEE doubles. Rounding and the summation order of floats are left out.
- **Graph shape:** malformed edge records are left out; every dependency record is a parent/child pair of optional names.

Python semantics:

- **Whitespace and case:** whitespace is ASCII whitespace, and `lower()` maps ASCII letters only; Unicode case and spacing rules are left out.
- **Integers:** `int()` is modelled for an optional sign followed by decimal digits. Python's underscores and non-ASCII digits are left out.
- **Paths:** `Path.stem` is modelled on '/'-separated text; other path normalisation is left out.
- **Dictionary order:** `_select_endpoints` iterates each document's endpoints as a set. Each endpoint gets one pair per document either way, so the result does not depend on the order.

Gate:

- **Loading errors:** non-string modes, a `pfail` that is present but null or not a number, and an endpoint `reliability` that is neither null nor a number are left out. The source's `float(...)` (gate.py:40 and gate.py:65) converts a number, a numeric string or a boolean (as 1.0/0.0) and raises on anything else; the model holds only numbers, so a string or boolean `pfail` or `reliability` is not modelled.
- **Documents that are not objects:** a result document that is not a JSON object is left out. The source raises `AttributeError` at `data.get` (gate.py:37); the model has no such document, since `GateLoad.ResultDoc` is always an object. A `summary` that is missing or not an object is modelled: it is `summary == None`, and `GateLoad.KeyOf` skips the file, as gate.py:38-39 does.
- **Null members read as absent:** a member present with the value null is modelled as the member missing, where the source raises instead. This covers `replicas_file: null` (`Path(None)` at gate.py:43), a document's `endpoints: null` (`.items()` on None at gate.py:62), an endpoint's `reliability: null` (`float(None)` at gate.py:65), a graph's `entrypoints: null` (`dict(None)` at simulate.py:153) and a graph's `dependencies: null` (iterated at simulate.py:160 and, through simulate.py:155, at simulate.py:110).
- Gate.EvaluateGate: visits endpoints in name order rather than in the selection's insertion order. The verdict, the violations (reported sorted) and the minimum do not depend on that order, and the mean differs only in float summation order.
- **Modes:** argparse's restriction of `--mode` to "any" and "mean" is left out. Any other mode string behaves as "any", which is what `evaluate_gate` does with it.
- **Argument parsing and output:** argument parsing, `print`, writing `--summary` and `sys.exit` are left out. `Gate.GateMain` returns the exit status, the message and the summary payload instead.
- **Number formatting:** the `:.4f`, `:g` and `str()` float formats are passed in as functions; their digits are not modelled.
- **GateResult:** it is a value (datatype), since nothing updates its fields after construction. The in-place `entries.sort` is modelled as replacing each series with its stable sort.
