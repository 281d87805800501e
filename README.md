# cutlist-web backend: design-constraint tests and chat request assembly

This project models two services of the cutlist-web backend in Dafny and proves properties
of the models.

**The design-constraint test suite** (`backend/app/services/test_service.py`) checks a
generated furniture design that is made of parts. It runs five tests:

- **Code Execution.** Did the design's code produce a `result`?
- **Parts in Library.** Is every part a beam of the parts library with a valid length, a
  plywood panel within the maximum size, or neither?
- **No Part Intersections.** Does any pair of parts overlap by more than 1 cubic mm?
- **Static Stability.** The stability test.
- **Part Connectivity.** Is every part reachable from the first part through touching parts,
  by a breadth-first search?

The suite then tallies the statuses. On a failed execution, the four design tests are
replaced by "skipped" results. The code appends "Part Connectivity" twice, so a
failed run holds six results. The model keeps that behaviour and proves it.

**The chat service** (`backend/app/services/gemini_service.py`) turns the conversation
history and the current message into the ordered list of request contents. It picks the
system prompt and streams the model's reply. Empty chunks are dropped, and a failure adds
one error chunk at the end.

Modules, one per concern:

- `Wrappers` (wrappers.dfy): `Option`.
- `PartsLibrary` (parts_library.dfy): the library entries, the length check
  (`_is_valid_beam_length`), Python's `%`, and part classification (`_classify_part`).
- `TestResults` (test_results.dfy): `TestStatus`, `TestResult`, `TestSuiteResult`, their
  `to_dict` forms and the status tallies.
- `PartsCheck` (parts_check.dfy): `test_parts_in_library`.
- `Intersections` (intersections.dfy): `test_no_intersections`.
- `Connectivity` (connectivity.dfy): `test_connectivity`, with its adjacency lists and BFS.
- `TestSuite` (test_suite.dfy): the decision logic of `test_code_executes`, and
  `run_test_suite`.
- `GeminiService` (gemini_service.dfy): `_build_contents` and `stream_chat`.

Conventions:

- **Lengths** are integers in hundredths of a millimetre. The 1.0 mm tolerance is 100, the
  0.5 mm plywood tolerance is 50, and the defaults (100, 500, 50, 7 and 500 mm) are 10000,
  50000, 5000, 700 and 50000.
- **Python's `%`** is modelled as floor modulo (`PyMod`), so the remainder takes the sign of
  the divisor.
- **OCP geometry** is abstract, and each test receives what the geometry would report:
  - the sorted dimensions of each part;
  - the overlap volume of each pair;
  - the "connected" relation.
- **Loops stay loops.** Every loop of the source is a `method` with a loop.
  - `_classify_part` has its beam loop (`FindBeam`).
  - The library test has its analysis loop and its summary loop.
  - The intersection test has its nested pair loops.
  - The connectivity test has its adjacency loops on an `array<seq<nat>>`, its FIFO BFS on
    an `array<bool>`, and its collection of the unvisited indices.
  - `_build_contents` appends each history entry to a list.
  - `stream_chat` runs its yield loop.
- **Each method is proved against a function** that states its result:
  - `Classify` against `ClassifyPart`;
  - each test method against its result function (`LibraryResult`, `IntersectionResult`,
    `ConnectivityResult`);
  - `DesignTests` against `DesignResults`, and `RunTestSuite` against `SuiteTests`.

  Lemmas then prove the promised properties about those functions: the `...Meaning` lemmas
  for the tests, and the `...RunOrder` lemmas for the suite's order.
- **Static Stability** is an input verdict (`StabilityVerdict`: status, message, details).
  The suite builds its result under the name "Static Stability" itself (`StabilityResult`).

Two places where the code and its surrounding design disagree:

- `_classify_part` reads `get_settings().parts_library` (test_service.py:124). The
  `Settings` class in `backend/app/config.py` defines no such attribute, so the code as
  written would raise `AttributeError`. The model takes the library as a parameter.
- Classification dispatches on the type-name string (test_service.py:441-453). Suppose a
  beam named "plywood" or "unknown" is the first beam to match a part. Its classification
  then goes down the plywood or unknown branch, and the source raises `KeyError` at line
  442 or 450. Suppose instead a beam with a zero increment is the first match and the
  length is in range. Then line 175 raises `ZeroDivisionError`. `WellFormedLibrary`
  excludes every library that holds such a beam, whether or not the beam is ever matched.
  `ClassifyPartSpec` proves that, on a well-formed library, the type name tells the three
  kinds apart.

## Model

| member | source | states |
|---|---|---|
| PartsLibrary.PyMod | backend/app/services/test_service.py:175 | Python's `%`: the remainder lies in [0, b) for a positive divisor and in (b, 0] for a negative one, and a − r is a multiple of b |
| PartsLibrary.IsValidBeamLength | backend/app/services/test_service.py:164-176 | a length below min − tolerance or above max + tolerance is rejected, for any increment (zero included); only an in-range length needs a nonzero increment, since only then does the source divide |
| PartsLibrary.BeamLengthNearGrid | backend/app/services/test_service.py:164-176 | for any positive increment, a length is valid iff it is in range and within the tolerance of some grid point min + k·inc (both directions) |
| PartsLibrary.OnGridLengthAccepted | backend/app/services/test_service.py:173-176 | every on-grid length min + k·inc inside [min, max] is accepted, for either sign of the increment |
| PartsLibrary.NegativeIncrementAcceptsRange | backend/app/services/test_service.py:173-176 | with a negative increment the remainder is never positive, so exactly the in-range lengths pass |
| PartsLibrary.DefaultGridExamples | backend/app/services/test_service.py:166-176 | with the default min 100, max 500 and increment 50: 150.00 mm and 501.00 mm pass; 175.00 mm and 501.01 mm fail |
| PartsLibrary.SortedCrossSection | backend/app/services/test_service.py:130 | the beam's (width, height) in ascending order, as a permutation of the pair |
| PartsLibrary.FirstBeamMatch | backend/app/services/test_service.py:127-145 | the first beam in library order whose sorted cross-section lies within 1.0 mm of the two smaller dimensions; `None` iff no beam matches |
| PartsLibrary.FindBeam | backend/app/services/test_service.py:127-145 | the beam loop returns the first matching beam's index, or `None` when no beam matches |
| PartsLibrary.ClassifyPart | backend/app/services/test_service.py:122-161 | a beam classification is a library beam that matches, with the part's length; a plywood one exists only when the library has plywood and carries the smallest dimension; the type names "plywood" and "unknown" identify exactly those kinds |
| PartsLibrary.Classify | backend/app/services/test_service.py:122-161 | running the beam loop and then the plywood check yields exactly `ClassifyPart` |
| PartsLibrary.ClassifyPartSpec | backend/app/services/test_service.py:122-161 | a beam iff some beam matches, and then the first match, with the length and its validity; plywood iff no beam matches, plywood exists and the thickness is within 0.5 mm, with valid_size iff width ≤ max_width and height ≤ max_height; otherwise unknown with the dimensions unchanged; the type name tells the kinds apart |
| TestResults.ParseStatus | backend/app/services/test_service.py:21-25 | `TestStatus(value)` inverts the enum values; any other string is rejected |
| TestResults.StatusValueRoundTrip | backend/app/services/test_service.py:21-25 | every status parses back from its string value |
| TestResults.ResultToDict | backend/app/services/test_service.py:37-40 | `to_dict` keeps name, message and details, and stores the status as its value, which parses back to the status |
| TestResults.CountStatus | backend/app/services/test_service.py:923-926 | a tally never exceeds the number of tests |
| TestResults.CountsSumToLength | backend/app/services/test_service.py:922-934 | passed + failed + skipped + errors == len(tests) |
| TestResults.CountZeroIffAbsent | backend/app/services/test_service.py:923-926 | a tally is zero iff no test has that status |
| TestResults.CountStatusAppend | backend/app/services/test_service.py:923-926 | tallies add up over concatenated test lists |
| TestResults.SuiteToDict | backend/app/services/test_service.py:52-60 | the dict keeps the four counters, and converts every test in order with `TestResult.to_dict` |
| TestResults.SuccessIffNoFailureOrError | backend/app/services/test_service.py:59 | for a tallied suite, `success` holds iff every test passed or was skipped |
| PartsCheck.AnalyzedUpTo | backend/app/services/test_service.py:423-438 | no more entries than parts looked at |
| PartsCheck.ViolationOf | backend/app/services/test_service.py:440-461 | a part violates iff it is oversize plywood, unknown, or a beam with an invalid length; the violation names the part |
| PartsCheck.ViolationsOf | backend/app/services/test_service.py:440-461 | no more violations than analysed parts |
| PartsCheck.OneViolationPerViolatingPart | backend/app/services/test_service.py:440-461 | there is exactly one violation per violating part |
| PartsCheck.ViolationsComeFromParts | backend/app/services/test_service.py:440-461 | every reported violation is the violation of some analysed part |
| PartsCheck.ViolatingPartsAreReported | backend/app/services/test_service.py:440-461 | every violating part's violation is reported |
| PartsCheck.FailsIffSomePartViolates | backend/app/services/test_service.py:464 | the violation list is non-empty iff some analysed part violates |
| PartsCheck.AnalyzedPartsFaithful | backend/app/services/test_service.py:423-438 | each entry carries its own 1-based index, the part's name, its available dimensions and their classification |
| PartsCheck.AnalyzedPartsInOrder | backend/app/services/test_service.py:423-438 | the entries' indices are in range and strictly increase, so the input order is kept |
| PartsCheck.PartsWithDimsAreAnalyzed | backend/app/services/test_service.py:427-430 | every part with dimensions is analysed; only parts without dimensions are skipped |
| PartsCheck.BumpSum | backend/app/services/test_service.py:481 | one count update adds exactly one to the total |
| PartsCheck.Bump | backend/app/services/test_service.py:481 | one count update never shrinks the summary and grows it by at most one entry |
| PartsCheck.BumpLookup | backend/app/services/test_service.py:481 | one update adds one to the updated type's count and leaves every other count unchanged |
| PartsCheck.BumpKeys | backend/app/services/test_service.py:481 | an update introduces no key other than the updated type |
| PartsCheck.BumpWellFormed | backend/app/services/test_service.py:481 | an update keeps the keys distinct and the counts positive |
| PartsCheck.KeyPresentIffCounted | backend/app/services/test_service.py:481 | a type is a key of the summary iff its count is positive |
| PartsCheck.SummaryOf | backend/app/services/test_service.py:477-481 | the summary's counts sum to the number of analysed parts, with at most one key per part |
| PartsCheck.SummaryCountsParts | backend/app/services/test_service.py:477-481 | the summary's counts sum to parts_analyzed; keys are distinct; each type's count is its number of analysed parts; a type is present iff such a part exists |
| PartsCheck.AnalyzeParts | backend/app/services/test_service.py:420-461 | the analysis loop returns exactly the analysed parts and their violations, in order |
| PartsCheck.SummarizeParts | backend/app/services/test_service.py:477-481 | the summary loop returns the summary of the analysed parts |
| PartsCheck.LibraryResult | backend/app/services/test_service.py:409-494 | the result is named "Parts in Library" |
| PartsCheck.LibraryResultMeaning | backend/app/services/test_service.py:409-494 | never an error; skipped iff there are no parts; failed iff some analysed part violates, then with one violation per violating part and the analysed parts; otherwise passed with parts_analyzed, and a summary whose counts sum to it and give each type its number of analysed parts |
| PartsCheck.TestPartsInLibrary | backend/app/services/test_service.py:409-494 | the test method returns exactly `LibraryResult` |
| Intersections.Record | backend/app/services/test_service.py:576-590 | checking one pair records at most one intersection |
| Intersections.PairsUpToClosedForm | backend/app/services/test_service.py:563-565 | the pairs visited before row i number (2in − i(i+1))/2 |
| Intersections.AllPairsCount | backend/app/services/test_service.py:563-565 | checked_pairs == n(n−1)/2 |
| Intersections.RowSound | backend/app/services/test_service.py:564-590 | every record of row i names the pair (i, j), with its names, and a volume above 1.0 |
| Intersections.RowOrdered | backend/app/services/test_service.py:564 | the records of one row have increasing second parts |
| Intersections.RowComplete | backend/app/services/test_service.py:564-590 | every pair (i, k) of the row whose overlap exceeds 1.0 is recorded |
| Intersections.RowsSound | backend/app/services/test_service.py:563-590 | every record among the first i rows is sound |
| Intersections.RowsOrdered | backend/app/services/test_service.py:563-564 | the records of the first i rows are in lexicographic (part1, part2) order |
| Intersections.RowsComplete | backend/app/services/test_service.py:563-590 | every overlapping pair whose first part is below i is recorded |
| Intersections.Recorded | backend/app/services/test_service.py:563-590 | every recorded intersection is sound, and the records are in lexicographic (part1, part2) order |
| Intersections.RecordedIsExactlyOverlappingPairs | backend/app/services/test_service.py:563-590 | the intersections are exactly the pairs i < j with volume > 1.0, each once, in increasing order |
| Intersections.CheckRow | backend/app/services/test_service.py:564-590 | the inner loop records row i's intersections and counts n − i − 1 pairs |
| Intersections.IntersectionResult | backend/app/services/test_service.py:548-624 | the result is named "No Part Intersections" |
| Intersections.IntersectionResultMeaning | backend/app/services/test_service.py:548-624 | passed or failed, never skipped or an error; failed iff some pair i < j overlaps by more than 1.0, then with exactly the recorded intersections and their count; for two or more parts pairs_checked is the number of pairs visited (n(n−1)/2, by `AllPairsCount`) |
| Intersections.TestNoIntersections | backend/app/services/test_service.py:548-624 | the test method returns exactly `IntersectionResult` |
| Connectivity.EdgeSymmetric | backend/app/services/test_service.py:686-690 | the recorded edge relation is symmetric and irreflexive |
| Connectivity.ReachabilityAgrees | backend/app/services/test_service.py:684-702 | over adjacency lists of the connected relation, reachability along the lists equals reachability through connected pairs |
| Connectivity.ClosedSetHoldsReachable | backend/app/services/test_service.py:697-702 | a visited set that holds part 0 and is closed under adjacency holds every reachable part |
| Connectivity.BuildAdjacency | backend/app/services/test_service.py:683-690 | `adj[u]` holds exactly the parts v connected with u |
| Connectivity.EnqueueUnvisited | backend/app/services/test_service.py:699-702 | every unvisited neighbour is marked and queued once; afterwards every neighbour of u is visited, the only parts newly marked are neighbours of u, and only reachable parts are visited |
| Connectivity.SearchFromFirst | backend/app/services/test_service.py:693-702 | the BFS terminates, and `visited[v]` holds iff v is reachable from part 0 |
| Connectivity.UnreachedBelowExact | backend/app/services/test_service.py:714 | the disconnected indices are exactly the unreachable parts, in strictly ascending order |
| Connectivity.UnreachedBelow | backend/app/services/test_service.py:714 | the unreached indices below k are at most k in number and all below k |
| Connectivity.CollectUnvisited | backend/app/services/test_service.py:714 | the collected indices are the unreached parts, all in range |
| Connectivity.ConnectivityResult | backend/app/services/test_service.py:663-732 | the result is named "Part Connectivity" |
| Connectivity.ConnectivityResultMeaning | backend/app/services/test_service.py:663-732 | never an error; skipped iff there are no parts; passed iff there are parts and every one is reachable from part 0; a failure has at least two parts and names exactly the unreachable parts in ascending order, with the part names listed in the message iff there are at most three |
| Connectivity.TestConnectivity | backend/app/services/test_service.py:663-732 | the test method returns exactly `ConnectivityResult` |
| TestSuite.TestCodeExecutes | backend/app/services/test_service.py:368-406 | passed iff a non-None result was produced; error iff a runtime error was raised; failed for a syntax error, a missing result or a None result; each case gets its own message |
| TestSuite.Tally | backend/app/services/test_service.py:922-934 | the suite's counters are the tallies of its tests and sum to their number |
| TestSuite.DesignTests | backend/app/services/test_service.py:878-893 | tests 2 to 5 are exactly `DesignResults`: the library, intersection, stability and connectivity results on the produced design, in that order |
| TestSuite.SkippedTests | backend/app/services/test_service.py:895-920 | every stand-in is skipped with the message "Skipped because code execution failed" |
| TestSuite.RunTestSuite | backend/app/services/test_service.py:864-934 | the tests are exactly `SuiteTests`: the execution test, then the design results if it passed, else the stand-ins; the counters are their tallies and sum to their number |
| TestSuite.DesignResultsNamed | backend/app/services/test_service.py:878-893 | the design results are named Parts in Library, No Part Intersections, Static Stability, Part Connectivity, in that order |
| TestSuite.PassedRunOrder | backend/app/services/test_service.py:875-893 | after a passed execution test the design tests follow it, in that order |
| TestSuite.SkippedRunOrder | backend/app/services/test_service.py:895-920 | after any other execution test come five skipped stand-ins, named in order with "Part Connectivity" twice |
| TestSuite.ProducedRunOrder | backend/app/services/test_service.py:864-893 | a run whose code produced a result holds Code Execution and the four design tests, in order |
| TestSuite.FailedExecutionFailsSuite | backend/app/services/test_service.py:895-926 | a run whose code produced no result tallies 5 skipped, 0 passed and 1 failed or error |
| TestSuite.SkippedSuiteFails | backend/app/services/test_service.py:895-926 | a six-test run whose first test failed or erred tallies 5 skipped, 0 passed, and failed + errors == 1 |
| TestSuite.AllSkipped | backend/app/services/test_service.py:923-926 | a run of skipped tests tallies only as skipped |
| GeminiService.BuildContents | backend/app/services/gemini_service.py:19-52 | len(history) + 1 entries; entry i carries history[i]'s role and content in order; the last is ("user", message) |
| GeminiService.HistoryOrEmpty | backend/app/services/gemini_service.py:70-71 | a missing history is treated as empty; a given one is used as is |
| GeminiService.PromptToUse | backend/app/services/gemini_service.py:75-76 | a given prompt, even an empty one, overrides the default; the default applies only when there is none |
| GeminiService.NonEmptyTexts | backend/app/services/gemini_service.py:87-88 | no more texts than chunks, and none of them empty |
| GeminiService.Yielded | backend/app/services/gemini_service.py:78-90 | no yielded chunk is empty; a successful run yields at most one chunk per delivered chunk; a failed one yields at least one, at most one more than delivered, and ends with the error chunk |
| GeminiService.ErrorChunk | backend/app/services/gemini_service.py:89-90 | the error chunk is exactly "\n\n[Error: " + message + "]": it starts with that prefix, ends with "]", and the text between is the message |
| GeminiService.StreamChat | backend/app/services/gemini_service.py:54-90 | the request carries the model, the built contents for the defaulted history, the chosen prompt and temperature 0.7; the yielded chunks are the provider's non-empty texts in order, then one error chunk on failure |
| GeminiService.NonEmptyTextsAppend | backend/app/services/gemini_service.py:79-88 | filtering commutes with splitting the stream anywhere |
| GeminiService.NonEmptyChunkIsYielded | backend/app/services/gemini_service.py:87-88 | every non-empty chunk text is yielded |
| GeminiService.YieldedTextIsDelivered | backend/app/services/gemini_service.py:87-88 | nothing is yielded that the provider did not deliver |
| GeminiService.ConcatAppend | backend/app/services/gemini_service.py:87-88 | joining distributes over concatenated chunk lists |
| GeminiService.FilteringKeepsText | backend/app/services/gemini_service.py:87-88 | the yielded texts join to exactly the full response text |
| GeminiService.YieldedShape | backend/app/services/gemini_service.py:78-90 | a successful run yields exactly the filtered chunks; a failed one yields them followed by exactly one error chunk |
| GeminiService.FailureKeepsDeliveredChunks | backend/app/services/gemini_service.py:78-90 | a failure keeps what was already yielded, which is a prefix of what the full stream would yield, and then adds the error chunk |
| GeminiService.Defaults | backend/app/services/gemini_service.py:70-76 | a missing history builds just the user's message; an empty prompt is used as given |

## Left out

- OCP/CadQuery geometry is abstract. This covers `_get_oriented_dims`,
  `_get_axis_aligned_dims`, `_extract_solids`, `_compute_intersection`, `_get_solid_volume`
  and `_are_parts_connected`. The tests receive their results as inputs: per-part
  dimensions (`None` when unavailable), a per-pair overlap volume (`None` when there is no
  intersection solid or its computation raised), and a per-pair "connected" relation. These
  are foreign calls.
- `test_static_stability` is floating-point centre-of-mass numerics on foreign `Center()`
  and `BoundingBox()` calls. Its result is an input of the suite (`Design.stability`).
- `test_code_executes` does not run anything. Only its decision over the way `exec` ended
  is modelled (`ExecOutcome`), because `exec` runs arbitrary Python.
- The suite does not model the exceptions the geometry helpers can raise out of the design
  tests. They are foreign calls.
- Message wording is not modelled: `%.1f`/`round(…, 2)` formatting, the f-string texts,
  `long_message`, `summary_str` and `intersection_descriptions`. `Message` and `Details`
  carry the values the strings interpolate. Fixed message texts are kept as strings.
- Intersection volumes are kept unrounded. They are presentation detail.
- Floating-point lengths are integer hundredths of a millimetre. Dimensions reach the tests
  already rounded to 2 decimals.
- PartsLibrary.ClassifyPart: requires `WellFormedLibrary`, so the model says nothing about
  a library holding a beam with a zero increment or a beam named "plywood" or "unknown".
  The source raises on such a library only when that beam is the first to match a part:
  `KeyError` at line 442 or 450 for the two names, and `ZeroDivisionError` at line 175 for a
  zero increment with an in-range length. When the beam is never the first match, the source
  classifies normally; the model excludes those libraries all the same.
- PartsLibrary.ClassifyPart: takes the library as a parameter. `Settings` in
  `backend/app/config.py` has no `parts_library` attribute.
- Intersections.TestNoIntersections: the `intersection_descriptions` entry of the failed
  details is not modelled; it is presentation.
- Logging calls are left out. They have no effect on results.
- `backend/app/main.py`, `backend/app/config.py` and `backend/app/blocks.py` are left out.
  They are HTTP plumbing, environment reads, and a constant table.
- The Gemini client is abstract: `Provider` maps the request to the chunks delivered and an
  optional failure. The client is network I/O. The module-level singleton
  `get_gemini_service` and `Service` construction from settings are left out.
- The `async` generator is modelled as the sequence of chunks it yields over a whole run.
  Timing and interleaving are not modelled.
- History entries are (role, content) records. A dictionary lacking either key would raise
  `KeyError` in the source, and the model does not represent that.
- The frontend streaming engine is not part of this model. This covers SSE decoding, fence
  extraction, the transcript and the designer loop.
