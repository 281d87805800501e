/**
 * `test_code_executes` (its decision logic) and `run_test_suite`: the fixed order of the
 * five tests, the skip branch taken when the code does not produce a result, and the
 * status tallies of the suite.
 */
module TestSuite {
  import opened PartsLibrary
  import opened TestResults
  import opened PartsCheck
  import opened Intersections
  import opened Connectivity

  const CodeExecutionTestName: string := "Code Execution"
  const StabilityTestName: string := "Static Stability"
  const SkippedMessage: string := "Skipped because code execution failed"

  /** What `test_static_stability` reports; every result it returns is named "Static Stability". */
  datatype StabilityVerdict = StabilityVerdict(status: TestStatus, message: Message, details: Details)

  /**
   * What the design's `result` provides to the later tests: its extracted parts (names and
   * sorted dimensions), the pairwise overlap volumes and "connected" relation of their solids,
   * and the verdict of `test_static_stability` on it.
   */
  datatype Design = Design(parts: seq<PartInput>, overlap: Overlap, connected: Connected, stability: StabilityVerdict)

  function StabilityResult(v: StabilityVerdict): TestResult {
    TestResult(StabilityTestName, v.status, v.message, v.details)
  }

  /** How `exec(code, ...)` ended, and what it left in the `result` variable. */
  datatype ExecOutcome =
    | NoResultVariable
    | ResultIsNone
    | ResultProduced(design: Design)
    | SyntaxErr(line: int, msg: string)
    | RuntimeErr(msg: string)

  /** The verdict of `test_code_executes` on one execution outcome. */
  function TestCodeExecutes(outcome: ExecOutcome): (r: TestResult)
    ensures r.name == CodeExecutionTestName && r.details == NoDetails
    ensures r.status == Passed <==> outcome.ResultProduced?
    ensures r.status == Error <==> outcome.RuntimeErr?
    ensures r.status != Skipped
    ensures outcome.SyntaxErr? ==> r.status == Failed && r.message == SyntaxErrorAt(outcome.line, outcome.msg)
    ensures outcome.RuntimeErr? ==> r.message == RuntimeError(outcome.msg)
    ensures outcome.NoResultVariable? ==>
              r.message == Text("Code executed but 'result' variable was not defined")
    ensures outcome.ResultIsNone? ==> r.message == Text("Code executed but 'result' is None")
    ensures outcome.ResultProduced? ==>
              r.message == Text("Code executed successfully and produced a result")
  {
    match outcome
    case NoResultVariable =>
      TestResult(CodeExecutionTestName, Failed, Text("Code executed but 'result' variable was not defined"), NoDetails)
    case ResultIsNone =>
      TestResult(CodeExecutionTestName, Failed, Text("Code executed but 'result' is None"), NoDetails)
    case ResultProduced(_) =>
      TestResult(CodeExecutionTestName, Passed, Text("Code executed successfully and produced a result"), NoDetails)
    case SyntaxErr(line, msg) =>
      TestResult(CodeExecutionTestName, Failed, SyntaxErrorAt(line, msg), NoDetails)
    case RuntimeErr(msg) =>
      TestResult(CodeExecutionTestName, Error, RuntimeError(msg), NoDetails)
  }

  function Names(parts: seq<PartInput>): (r: seq<string>)
    ensures |r| == |parts| && forall i :: 0 <= i < |parts| ==> r[i] == parts[i].name
  {
    seq(|parts|, i requires 0 <= i < |parts| => parts[i].name)
  }

  /** The tests carry the given names, in this order. */
  predicate NamedInOrder(tests: seq<TestResult>, names: seq<string>) {
    |tests| == |names| && forall i :: 0 <= i < |tests| ==> tests[i].name == names[i]
  }

  function Skip(name: string): TestResult {
    TestResult(name, Skipped, Text(SkippedMessage), NoDetails)
  }

  /** Builds the suite result from its tests, counting each status. */
  function Tally(tests: seq<TestResult>): (r: TestSuiteResult)
    ensures r.tests == tests && Tallied(r)
    ensures r.passed + r.failed + r.skipped + r.errors == |tests|
  {
    CountsSumToLength(tests);
    TestSuiteResult(CountStatus(tests, Passed), CountStatus(tests, Failed),
                    CountStatus(tests, Skipped), CountStatus(tests, Error), tests)
  }

  /** The results of tests 2 to 5 on the design the code produced, each as its own test reports it. */
  ghost function DesignResults(lib: Library, design: Design): seq<TestResult>
    requires WellFormedLibrary(lib)
  {
    [LibraryResult(lib, design.parts), IntersectionResult(Names(design.parts), design.overlap),
     StabilityResult(design.stability), ConnectivityResult(Names(design.parts), design.connected)]
  }

  /** The tests `run_test_suite` collects: the execution test, then the design tests if it passed, else the stand-ins. */
  function SuiteTestsOf(exec: TestResult, design: seq<TestResult>): seq<TestResult> {
    [exec] + if exec.status == Passed then design else SkippedTests()
  }

  /** The tests `run_test_suite` collects for one execution outcome, in order. */
  ghost function SuiteTests(lib: Library, outcome: ExecOutcome): seq<TestResult>
    requires WellFormedLibrary(lib)
  {
    SuiteTestsOf(TestCodeExecutes(outcome), if outcome.ResultProduced? then DesignResults(lib, outcome.design) else [])
  }

  /** Tests 2 to 5 of `run_test_suite`, run on the design the code produced. */
  method DesignTests(lib: Library, design: Design) returns (tests: seq<TestResult>)
    requires WellFormedLibrary(lib)
    ensures tests == DesignResults(lib, design)
  {
    var constraintResult := TestPartsInLibrary(lib, design.parts);
    var intersectionResult := TestNoIntersections(Names(design.parts), design.overlap);
    var stabilityResult := StabilityResult(design.stability);
    var connectivityResult := TestConnectivity(Names(design.parts), design.connected);
    tests := [constraintResult, intersectionResult, stabilityResult, connectivityResult];
  }

  /** The stand-ins appended when code execution did not pass (with "Part Connectivity" twice). */
  function SkippedTests(): (tests: seq<TestResult>)
    ensures forall i :: 0 <= i < |tests| ==> tests[i] == Skip(tests[i].name)
  {
    [Skip(LibraryTestName), Skip(IntersectionTestName), Skip(StabilityTestName),
     Skip(ConnectivityTestName), Skip(ConnectivityTestName)]
  }

  /** `run_test_suite`: the execution test, then the four design tests or their skipped stand-ins. */
  method RunTestSuite(lib: Library, outcome: ExecOutcome) returns (r: TestSuiteResult)
    requires WellFormedLibrary(lib)
    ensures r.tests == SuiteTests(lib, outcome)
    ensures Tallied(r) && r.passed + r.failed + r.skipped + r.errors == |r.tests|
  {
    var tests: seq<TestResult> := [];
    var execResult := TestCodeExecutes(outcome);
    tests := tests + [execResult];
    var rest: seq<TestResult>;
    if execResult.status == Passed {
      rest := DesignTests(lib, outcome.design);
    } else {
      rest := SkippedTests();
    }
    tests := tests + rest;
    assert tests == [execResult] + rest && tests[1..] == rest;
    r := Tally(tests);
  }

  /** The design tests' names, in the order `run_test_suite` runs them. */
  lemma DesignResultsNamed(lib: Library, design: Design)
    requires WellFormedLibrary(lib)
    ensures var d := DesignResults(lib, design);
      |d| == 4 && d[0].name == LibraryTestName && d[1].name == IntersectionTestName
      && d[2].name == StabilityTestName && d[3].name == ConnectivityTestName
  {
  }

  /** After a passed execution test, the design tests follow it in order. */
  lemma PassedRunOrder(exec: TestResult, design: seq<TestResult>)
    requires exec.status == Passed
    requires |design| == 4 && design[0].name == LibraryTestName && design[1].name == IntersectionTestName
    requires design[2].name == StabilityTestName && design[3].name == ConnectivityTestName
    ensures NamedInOrder(SuiteTestsOf(exec, design),
                         [exec.name, LibraryTestName, IntersectionTestName, StabilityTestName, ConnectivityTestName])
  {
    assert SuiteTestsOf(exec, design) == [exec, design[0], design[1], design[2], design[3]];
  }

  /** Otherwise five skipped stand-ins follow, "Part Connectivity" among them twice. */
  lemma SkippedRunOrder(exec: TestResult, design: seq<TestResult>)
    requires exec.status != Passed
    ensures var t := SuiteTestsOf(exec, design);
      NamedInOrder(t, [exec.name, LibraryTestName, IntersectionTestName,
                       StabilityTestName, ConnectivityTestName, ConnectivityTestName])
      && forall i :: 1 <= i < |t| ==> t[i] == Skip(t[i].name)
  {
    var t := SuiteTestsOf(exec, design);
    assert t[1..] == SkippedTests();
  }

  /** A run whose code produced a result collects the execution test and the four design tests, in order. */
  lemma ProducedRunOrder(lib: Library, outcome: ExecOutcome)
    requires WellFormedLibrary(lib) && outcome.ResultProduced?
    ensures NamedInOrder(SuiteTests(lib, outcome), [CodeExecutionTestName, LibraryTestName, IntersectionTestName,
                                                      StabilityTestName, ConnectivityTestName])
  {
    DesignResultsNamed(lib, outcome.design);
    PassedRunOrder(TestCodeExecutes(outcome), DesignResults(lib, outcome.design));
  }

  /** A run whose code did not produce a result tallies five skipped tests and one failure or error. */
  lemma FailedExecutionFailsSuite(lib: Library, outcome: ExecOutcome)
    requires WellFormedLibrary(lib) && !outcome.ResultProduced?
    ensures var t := SuiteTests(lib, outcome);
      CountStatus(t, Skipped) == 5 && CountStatus(t, Passed) == 0
      && CountStatus(t, Failed) + CountStatus(t, Error) == 1
  {
    SkippedRunOrder(TestCodeExecutes(outcome), []);
    SkippedSuiteFails(SuiteTests(lib, outcome));
  }

  /**
   * The skip branch's tally: after an execution test that failed or erred come five skipped
   * tests, so nothing passes and the suite does not succeed.
   */
  lemma SkippedSuiteFails(tests: seq<TestResult>)
    requires |tests| == 6 && (tests[0].status == Failed || tests[0].status == Error)
    requires forall i :: 1 <= i < |tests| ==> tests[i].status == Skipped
    ensures CountStatus(tests, Skipped) == 5 && CountStatus(tests, Passed) == 0
    ensures CountStatus(tests, Failed) + CountStatus(tests, Error) == 1
  {
    var head, rest := [tests[0]], tests[1..];
    assert tests == head + rest;
    AllSkipped(rest);
    CountStatusAppend(head, rest, Passed);
    CountStatusAppend(head, rest, Failed);
    CountStatusAppend(head, rest, Skipped);
    CountStatusAppend(head, rest, Error);
    assert head[..0] == [];
  }

  /** A run of skipped tests tallies as skipped only. */
  lemma {:induction false} AllSkipped(s: seq<TestResult>)
    requires forall i :: 0 <= i < |s| ==> s[i].status == Skipped
    ensures CountStatus(s, Skipped) == |s|
    ensures CountStatus(s, Passed) == 0 && CountStatus(s, Failed) == 0 && CountStatus(s, Error) == 0
  {
    if s != [] {
      AllSkipped(s[..|s| - 1]);
    }
  }
}
