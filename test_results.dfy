/**
 * Test outcomes of the design-constraint suite: `TestStatus`, `TestResult`,
 * `TestSuiteResult` and their `to_dict` forms, with the status tallies.
 */
module TestResults {
  import opened Wrappers
  import opened PartsLibrary

  datatype TestStatus = Passed | Failed | Skipped | Error

  /** The enum's string value, as `to_dict` emits it. */
  function StatusValue(s: TestStatus): string {
    match s
    case Passed => "passed"
    case Failed => "failed"
    case Skipped => "skipped"
    case Error => "error"
  }

  /** Inverse of `StatusValue` (`TestStatus(value)`), `None` for any other string. */
  function ParseStatus(v: string): (r: Option<TestStatus>)
    ensures r.Some? ==> StatusValue(r.value) == v
  {
    if v == "passed" then Some(Passed)
    else if v == "failed" then Some(Failed)
    else if v == "skipped" then Some(Skipped)
    else if v == "error" then Some(Error)
    else None
  }

  lemma StatusValueRoundTrip(s: TestStatus)
    ensures ParseStatus(StatusValue(s)) == Some(s)
  {
  }

  /** One analysed part of the library test (`parts_info` entry); `index` is 1-based. */
  datatype PartInfo = PartInfo(index: nat, name: string, dimensions: Dims, classification: Classification)

  /** One constraint violation of the library test; its human-readable wording is not modelled. */
  datatype Violation =
    | OversizePlywood(partName: string, width: int, height: int)
    | UnrecognizedPart(partName: string, dimensions: Dims)
    | InvalidBeamLength(partName: string, typeName: string, length: int,
                        minLength: int, maxLength: int, increment: int)

  /** One recorded overlap; `part1` and `part2` are 1-based indices. */
  datatype Intersection = Intersection(part1: nat, part2: nat, name1: string, name2: string, volume: real)

  /** The data a message interpolates; the exact wording is not modelled. */
  datatype Message =
    | Text(text: string)
    | SyntaxErrorAt(line: int, msg: string)
    | RuntimeError(msg: string)
    | ViolationsFound(count: nat)
    | AllPartsMeetConstraints(count: nat, summary: seq<(string, nat)>)
    | IntersectionsFound(count: nat)
    | NoIntersectionsFound(pairsChecked: nat)
    | AllPartsConnected(count: nat)
    | DetachedParts(names: seq<string>)
    | DetachedPartCount(count: nat)

  /** The `details` dictionary of each test; `Unmodelled` for details this model leaves out. */
  datatype Details =
    | NoDetails
    | LibraryViolations(violations: seq<Violation>, partsAnalyzed: nat, parts: seq<PartInfo>)
    | LibrarySummary(partsAnalyzed: nat, summary: seq<(string, nat)>, parts: seq<PartInfo>)
    | IntersectionDetails(intersections: seq<Intersection>, pairsChecked: nat)
    | PairsChecked(pairsChecked: nat)
    | ComponentCount(count: nat)
    | DisconnectedParts(names: seq<string>)
    | Unmodelled

  datatype TestResult = TestResult(name: string, status: TestStatus, message: Message, details: Details)

  /** `TestResult.to_dict`: the same fields, with the status as its string value. */
  datatype ResultDict = ResultDict(name: string, status: string, message: Message, details: Details)

  function ResultToDict(t: TestResult): (d: ResultDict)
    ensures d.name == t.name && d.message == t.message && d.details == t.details
    ensures ParseStatus(d.status) == Some(t.status)
  {
    ResultDict(t.name, StatusValue(t.status), t.message, t.details)
  }

  datatype TestSuiteResult = TestSuiteResult(passed: nat, failed: nat, skipped: nat, errors: nat, tests: seq<TestResult>)

  /** Number of tests with status `s` (`sum(1 for t in tests if t.status == s)`). */
  function CountStatus(tests: seq<TestResult>, s: TestStatus): (c: nat)
    ensures c <= |tests|
  {
    if tests == [] then 0
    else CountStatus(tests[..|tests| - 1], s) + (if tests[|tests| - 1].status == s then 1 else 0)
  }

  /** A suite whose four counters are the tallies of its tests, as `run_test_suite` builds it. */
  predicate Tallied(r: TestSuiteResult) {
    r.passed == CountStatus(r.tests, Passed) && r.failed == CountStatus(r.tests, Failed)
    && r.skipped == CountStatus(r.tests, Skipped) && r.errors == CountStatus(r.tests, Error)
  }

  /** The four tallies partition the tests. */
  lemma {:induction false} CountsSumToLength(tests: seq<TestResult>)
    ensures CountStatus(tests, Passed) + CountStatus(tests, Failed)
            + CountStatus(tests, Skipped) + CountStatus(tests, Error) == |tests|
  {
    if tests != [] {
      CountsSumToLength(tests[..|tests| - 1]);
    }
  }

  /** A tally is zero iff no test has that status. */
  lemma {:induction false} CountZeroIffAbsent(tests: seq<TestResult>, s: TestStatus)
    ensures CountStatus(tests, s) == 0 <==> forall i :: 0 <= i < |tests| ==> tests[i].status != s
  {
    if tests != [] {
      var init := tests[..|tests| - 1];
      CountZeroIffAbsent(init, s);
      assert forall i :: 0 <= i < |init| ==> init[i] == tests[i];
    }
  }

  /** Tallies distribute over concatenation. */
  lemma {:induction false} CountStatusAppend(a: seq<TestResult>, b: seq<TestResult>, s: TestStatus)
    ensures CountStatus(a + b, s) == CountStatus(a, s) + CountStatus(b, s)
  {
    if b != [] {
      assert (a + b)[..|a + b| - 1] == a + b[..|b| - 1];
      CountStatusAppend(a, b[..|b| - 1], s);
    } else {
      assert a + b == a;
    }
  }

  /** `TestSuiteResult.to_dict`. */
  datatype SuiteDict = SuiteDict(passed: nat, failed: nat, skipped: nat, errors: nat,
                                 tests: seq<ResultDict>, success: bool)

  function SuiteToDict(r: TestSuiteResult): (d: SuiteDict)
    ensures d.passed == r.passed && d.failed == r.failed && d.skipped == r.skipped && d.errors == r.errors
    ensures |d.tests| == |r.tests|
    ensures forall i :: 0 <= i < |r.tests| ==> d.tests[i] == ResultToDict(r.tests[i])
  {
    SuiteDict(r.passed, r.failed, r.skipped, r.errors,
              seq(|r.tests|, i requires 0 <= i < |r.tests| => ResultToDict(r.tests[i])),
              r.failed == 0 && r.errors == 0)
  }

  /** For a tallied suite, `success` holds iff every test passed or was skipped. */
  lemma SuccessIffNoFailureOrError(r: TestSuiteResult)
    requires Tallied(r)
    ensures SuiteToDict(r).success <==>
              forall i :: 0 <= i < |r.tests| ==> r.tests[i].status == Passed || r.tests[i].status == Skipped
  {
    CountZeroIffAbsent(r.tests, Failed);
    CountZeroIffAbsent(r.tests, Error);
  }
}
