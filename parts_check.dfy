/**
 * `test_parts_in_library`: classify every part whose dimensions are available, collect one
 * violation per part that breaks the library's constraints, and summarise part types.
 */
module PartsCheck {
  import opened Wrappers
  import opened PartsLibrary
  import opened TestResults

  /** One extracted part: its name and its sorted dimensions, `None` when they are unavailable. */
  datatype PartInput = PartInput(name: string, dims: Option<Dims>)

  const LibraryTestName: string := "Parts in Library"

  /** The `parts_info` entries for the first `k` parts; `index` is the 1-based part number. */
  function AnalyzedUpTo(lib: Library, parts: seq<PartInput>, k: nat): (infos: seq<PartInfo>)
    requires WellFormedLibrary(lib) && k <= |parts|
    ensures |infos| <= k
  {
    if k == 0 then []
    else
      var p := parts[k - 1];
      AnalyzedUpTo(lib, parts, k - 1)
        + (if p.dims.Some? then [PartInfo(k, p.name, p.dims.value, ClassifyPart(lib, p.dims.value))] else [])
  }

  function AnalyzedParts(lib: Library, parts: seq<PartInput>): seq<PartInfo>
    requires WellFormedLibrary(lib)
  {
    AnalyzedUpTo(lib, parts, |parts|)
  }

  /** The violation a part contributes, if any. */
  function ViolationOf(info: PartInfo): (v: Option<Violation>)
    ensures v.Some? <==> match info.classification
                         case Plywood(_, _, _, validSize) => !validSize
                         case Unknown(_) => true
                         case Beam(_, _, _, validLength, _) => !validLength
    ensures v.Some? ==> v.value.partName == info.name
  {
    match info.classification
    case Plywood(_, width, height, validSize) =>
      if validSize then None else Some(OversizePlywood(info.name, width, height))
    case Unknown(dims) => Some(UnrecognizedPart(info.name, dims))
    case Beam(typeName, _, length, validLength, beam) =>
      if validLength then None
      else Some(InvalidBeamLength(info.name, typeName, length, beam.MinLength(), beam.MaxLength(), beam.Increment()))
  }

  function ViolationsOf(infos: seq<PartInfo>): (vs: seq<Violation>)
    ensures |vs| <= |infos|
  {
    if infos == [] then []
    else
      var last := infos[|infos| - 1];
      ViolationsOf(infos[..|infos| - 1]) + (if ViolationOf(last).Some? then [ViolationOf(last).value] else [])
  }

  // ---- the per-type summary: an insertion-ordered dictionary from type name to count ----

  /** `part_summary[t] = part_summary.get(t, 0) + 1` on an insertion-ordered dictionary. */
  function Bump(s: seq<(string, nat)>, t: string): (r: seq<(string, nat)>)
    ensures |s| <= |r| <= |s| + 1
  {
    if s == [] then [(t, 1)]
    else if s[0].0 == t then [(t, s[0].1 + 1)] + s[1..]
    else [s[0]] + Bump(s[1..], t)
  }

  /** The summary loop's dictionary after all analysed parts: its counts add up to their number. */
  function SummaryOf(infos: seq<PartInfo>): (r: seq<(string, nat)>)
    ensures Sum(r) == |infos| && |r| <= |infos|
  {
    if infos == [] then []
    else
      var prev, t := SummaryOf(infos[..|infos| - 1]), infos[|infos| - 1].classification.TypeName();
      BumpSum(prev, t);
      Bump(prev, t)
  }

  /** The sum of the summary's counts. */
  function Sum(s: seq<(string, nat)>): nat {
    if s == [] then 0 else s[0].1 + Sum(s[1..])
  }

  /** `d.get(t, 0)` on the summary. */
  function Lookup(s: seq<(string, nat)>, t: string): nat {
    if s == [] then 0 else if s[0].0 == t then s[0].1 else Lookup(s[1..], t)
  }

  ghost predicate DistinctKeys(s: seq<(string, nat)>) {
    forall i, j :: 0 <= i < j < |s| ==> s[i].0 != s[j].0
  }

  ghost predicate PositiveCounts(s: seq<(string, nat)>) {
    forall i :: 0 <= i < |s| ==> s[i].1 > 0
  }

  /** Number of analysed parts whose type name is `t` (a reference count, independent of the dictionary). */
  function NumOfType(infos: seq<PartInfo>, t: string): nat {
    if infos == [] then 0
    else NumOfType(infos[..|infos| - 1], t) + (if infos[|infos| - 1].classification.TypeName() == t then 1 else 0)
  }

  /** The summary's keys, in insertion order. */
  function Keys(s: seq<(string, nat)>): (r: seq<string>)
    ensures |r| == |s| && forall i :: 0 <= i < |s| ==> r[i] == s[i].0
  {
    seq(|s|, i requires 0 <= i < |s| => s[i].0)
  }

  lemma {:induction false} BumpSum(s: seq<(string, nat)>, t: string)
    ensures Sum(Bump(s, t)) == Sum(s) + 1
  {
    if s != [] && s[0].0 != t {
      BumpSum(s[1..], t);
      assert Bump(s, t)[1..] == Bump(s[1..], t);
    } else if s != [] {
      assert Bump(s, t)[1..] == s[1..];
    }
  }

  lemma {:induction false} BumpLookup(s: seq<(string, nat)>, t: string, u: string)
    ensures Lookup(Bump(s, t), u) == Lookup(s, u) + (if u == t then 1 else 0)
  {
    if s != [] && s[0].0 != t {
      BumpLookup(s[1..], t, u);
      assert Bump(s, t)[1..] == Bump(s[1..], t);
    } else if s != [] {
      assert Bump(s, t)[1..] == s[1..];
    }
  }

  lemma {:induction false} BumpKeys(s: seq<(string, nat)>, t: string)
    ensures forall x :: x in Keys(Bump(s, t)) ==> x == t || x in Keys(s)
  {
    if s != [] && s[0].0 != t {
      BumpKeys(s[1..], t);
      var r := Bump(s, t);
      assert r == [s[0]] + Bump(s[1..], t);
      forall x | x in Keys(r) ensures x == t || x in Keys(s) {
        var i :| 0 <= i < |r| && Keys(r)[i] == x;
        if i > 0 {
          assert x in Keys(Bump(s[1..], t)) by { assert Keys(Bump(s[1..], t))[i - 1] == x; }
          if x != t {
            var j :| 0 <= j < |s[1..]| && Keys(s[1..])[j] == x;
            assert Keys(s)[j + 1] == x;
          }
        } else {
          assert Keys(s)[0] == x;
        }
      }
    } else if s != [] {
      var r := Bump(s, t);
      forall x | x in Keys(r) ensures x == t || x in Keys(s) {
        var i :| 0 <= i < |r| && Keys(r)[i] == x;
        assert Keys(s)[i] == x;
      }
    }
  }

  lemma TailWellFormed(s: seq<(string, nat)>)
    requires s != [] && DistinctKeys(s) && PositiveCounts(s)
    ensures DistinctKeys(s[1..]) && PositiveCounts(s[1..]) && s[0].0 !in Keys(s[1..])
  {
    var t := s[1..];
    forall i, j | 0 <= i < j < |t| ensures t[i].0 != t[j].0 {
      assert t[i] == s[i + 1] && t[j] == s[j + 1];
    }
    forall i | 0 <= i < |t| ensures t[i].1 > 0 {
      assert t[i] == s[i + 1];
    }
  }

  lemma ConsWellFormed(x: (string, nat), t: seq<(string, nat)>)
    requires DistinctKeys(t) && PositiveCounts(t) && x.0 !in Keys(t) && x.1 > 0
    ensures DistinctKeys([x] + t) && PositiveCounts([x] + t)
  {
    var r := [x] + t;
    forall i, j | 0 <= i < j < |r| ensures r[i].0 != r[j].0 {
      assert r[j] == t[j - 1];
      if i == 0 {
        assert Keys(t)[j - 1] == r[j].0;
      } else {
        assert r[i] == t[i - 1];
      }
    }
    forall i | 0 <= i < |r| ensures r[i].1 > 0 {
      if i > 0 {
        assert r[i] == t[i - 1];
      }
    }
  }

  lemma {:induction false} BumpWellFormed(s: seq<(string, nat)>, t: string)
    requires DistinctKeys(s) && PositiveCounts(s)
    ensures DistinctKeys(Bump(s, t)) && PositiveCounts(Bump(s, t))
  {
    if s != [] {
      TailWellFormed(s);
      if s[0].0 != t {
        var tail := Bump(s[1..], t);
        BumpWellFormed(s[1..], t);
        BumpKeys(s[1..], t);
        ConsWellFormed(s[0], tail);
        assert Bump(s, t) == [s[0]] + tail;
      } else {
        ConsWellFormed((t, s[0].1 + 1), s[1..]);
      }
    }
  }

  /** A key occurs in a summary with distinct keys and positive counts iff its count is positive. */
  lemma {:induction false} KeyPresentIffCounted(s: seq<(string, nat)>, t: string)
    requires PositiveCounts(s)
    ensures (exists i :: 0 <= i < |s| && s[i].0 == t) <==> Lookup(s, t) > 0
  {
    if s != [] {
      KeyPresentIffCounted(s[1..], t);
      if s[0].0 != t && exists i :: 0 <= i < |s| && s[i].0 == t {
        var i :| 0 <= i < |s| && s[i].0 == t;
        assert s[1..][i - 1].0 == t;
      }
      if s[0].0 != t && Lookup(s, t) > 0 {
        var i :| 0 <= i < |s[1..]| && s[1..][i].0 == t;
        assert s[i + 1].0 == t;
      }
    }
  }

  /**
   * The summary has one entry per distinct type name, its count is the number of analysed
   * parts of that type, and the counts sum to the number of analysed parts.
   */
  lemma {:induction false} SummaryCountsParts(infos: seq<PartInfo>)
    ensures Sum(SummaryOf(infos)) == |infos|
    ensures DistinctKeys(SummaryOf(infos)) && PositiveCounts(SummaryOf(infos))
    ensures forall t :: Lookup(SummaryOf(infos), t) == NumOfType(infos, t)
    ensures forall t :: (exists i :: 0 <= i < |SummaryOf(infos)| && SummaryOf(infos)[i].0 == t) <==> NumOfType(infos, t) > 0
  {
    if infos != [] {
      SummaryCountsParts(infos[..|infos| - 1]);
      var prev, t := SummaryOf(infos[..|infos| - 1]), infos[|infos| - 1].classification.TypeName();
      BumpSum(prev, t);
      BumpWellFormed(prev, t);
      forall u ensures Lookup(SummaryOf(infos), u) == NumOfType(infos, u) {
        BumpLookup(prev, t, u);
      }
    }
    var s := SummaryOf(infos);
    assert PositiveCounts(s);
    forall t ensures (exists i :: 0 <= i < |s| && s[i].0 == t) <==> NumOfType(infos, t) > 0 {
      KeyPresentIffCounted(s, t);
    }
  }

  // ---- what the analysis keeps and what it reports ----

  /**
   * Each analysed part carries its own 1-based index, name, available dimensions and
   * classification, and the analysed parts keep the input order.
   */
  ghost predicate FaithfulInfos(lib: Library, parts: seq<PartInput>, infos: seq<PartInfo>, k: nat)
    requires WellFormedLibrary(lib) && k <= |parts|
  {
    forall m :: 0 <= m < |infos| ==>
      1 <= infos[m].index <= k
      && parts[infos[m].index - 1].dims == Some(infos[m].dimensions)
      && parts[infos[m].index - 1].name == infos[m].name
      && infos[m].classification == ClassifyPart(lib, infos[m].dimensions)
  }

  lemma {:induction false} AnalyzedPartsFaithful(lib: Library, parts: seq<PartInput>, k: nat)
    requires WellFormedLibrary(lib) && k <= |parts|
    ensures FaithfulInfos(lib, parts, AnalyzedUpTo(lib, parts, k), k)
  {
    if k > 0 {
      AnalyzedPartsFaithful(lib, parts, k - 1);
      var prev := AnalyzedUpTo(lib, parts, k - 1);
      var infos := AnalyzedUpTo(lib, parts, k);
      var p := parts[k - 1];
      if p.dims.Some? {
        var info := PartInfo(k, p.name, p.dims.value, ClassifyPart(lib, p.dims.value));
        assert infos == prev + [info];
        forall m | 0 <= m < |infos|
          ensures 1 <= infos[m].index <= k
                  && parts[infos[m].index - 1].dims == Some(infos[m].dimensions)
                  && parts[infos[m].index - 1].name == infos[m].name
                  && infos[m].classification == ClassifyPart(lib, infos[m].dimensions)
        {
          if m < |prev| {
            assert infos[m] == prev[m];
          }
        }
      } else {
        assert infos == prev;
      }
    }
  }

  /** The analysed parts keep the input order: their part numbers strictly increase. */
  lemma {:induction false} AnalyzedPartsInOrder(lib: Library, parts: seq<PartInput>, k: nat)
    requires WellFormedLibrary(lib) && k <= |parts|
    ensures forall m :: 0 <= m < |AnalyzedUpTo(lib, parts, k)| ==> 1 <= AnalyzedUpTo(lib, parts, k)[m].index <= k
    ensures forall m, m' :: 0 <= m < m' < |AnalyzedUpTo(lib, parts, k)| ==>
              AnalyzedUpTo(lib, parts, k)[m].index < AnalyzedUpTo(lib, parts, k)[m'].index
  {
    if k > 0 {
      AnalyzedPartsInOrder(lib, parts, k - 1);
      var prev := AnalyzedUpTo(lib, parts, k - 1);
      var infos := AnalyzedUpTo(lib, parts, k);
      var p := parts[k - 1];
      if p.dims.Some? {
        var info := PartInfo(k, p.name, p.dims.value, ClassifyPart(lib, p.dims.value));
        assert infos == prev + [info];
        forall m | 0 <= m < |infos| ensures 1 <= infos[m].index <= k {
          if m < |prev| {
            assert infos[m] == prev[m];
          }
        }
        forall m, m' | 0 <= m < m' < |infos| ensures infos[m].index < infos[m'].index {
          assert infos[m] == prev[m];
          if m' < |prev| {
            assert infos[m'] == prev[m'];
          }
        }
      } else {
        assert infos == prev;
      }
    }
  }

  /** The 1-based part numbers of the analysed parts, in order. */
  function Indices(infos: seq<PartInfo>): (r: seq<nat>)
    ensures |r| == |infos| && forall m :: 0 <= m < |infos| ==> r[m] == infos[m].index
  {
    seq(|infos|, m requires 0 <= m < |infos| => infos[m].index)
  }

  /** Only parts whose dimensions are unavailable are left out of the analysis. */
  lemma {:induction false} PartsWithDimsAreAnalyzed(lib: Library, parts: seq<PartInput>, k: nat)
    requires WellFormedLibrary(lib) && k <= |parts|
    ensures forall i :: 0 <= i < k && parts[i].dims.Some? ==> i + 1 in Indices(AnalyzedUpTo(lib, parts, k))
  {
    if k > 0 {
      PartsWithDimsAreAnalyzed(lib, parts, k - 1);
      var prev := AnalyzedUpTo(lib, parts, k - 1);
      var infos := AnalyzedUpTo(lib, parts, k);
      var p := parts[k - 1];
      if p.dims.Some? {
        var info := PartInfo(k, p.name, p.dims.value, ClassifyPart(lib, p.dims.value));
        assert infos == prev + [info];
        assert Indices(infos) == Indices(prev) + [k];
      } else {
        assert infos == prev;
      }
    }
  }

  /** Every reported violation is the violation of some analysed part. */
  lemma {:induction false} ViolationsComeFromParts(infos: seq<PartInfo>)
    ensures forall m :: 0 <= m < |ViolationsOf(infos)| ==>
              exists k :: 0 <= k < |infos| && ViolationOf(infos[k]) == Some(ViolationsOf(infos)[m])
  {
    if infos != [] {
      var init := infos[..|infos| - 1];
      var last := infos[|infos| - 1];
      ViolationsComeFromParts(init);
      var vs := ViolationsOf(infos);
      var prev := ViolationsOf(init);
      assert vs == prev + if ViolationOf(last).Some? then [ViolationOf(last).value] else [];
      forall m | 0 <= m < |vs|
        ensures exists k :: 0 <= k < |infos| && ViolationOf(infos[k]) == Some(vs[m])
      {
        if m < |prev| {
          var k :| 0 <= k < |init| && ViolationOf(init[k]) == Some(prev[m]);
          assert infos[k] == init[k];
        } else {
          assert ViolationOf(infos[|infos| - 1]) == Some(vs[m]);
        }
      }
    } else {
      assert |ViolationsOf(infos)| == 0;
    }
  }

  /** Every analysed part that breaks a constraint is reported. */
  lemma {:induction false} ViolatingPartsAreReported(infos: seq<PartInfo>)
    ensures forall k :: 0 <= k < |infos| && ViolationOf(infos[k]).Some? ==>
              ViolationOf(infos[k]).value in ViolationsOf(infos)
  {
    if infos != [] {
      var init := infos[..|infos| - 1];
      var last := infos[|infos| - 1];
      ViolatingPartsAreReported(init);
      var vs := ViolationsOf(infos);
      assert vs == ViolationsOf(init) + if ViolationOf(last).Some? then [ViolationOf(last).value] else [];
      forall k | 0 <= k < |init| ensures infos[k] == init[k] {
      }
    }
  }

  /** Number of analysed parts that break a constraint. */
  function NumViolating(infos: seq<PartInfo>): nat {
    if infos == [] then 0
    else NumViolating(infos[..|infos| - 1]) + (if ViolationOf(infos[|infos| - 1]).Some? then 1 else 0)
  }

  /** There is exactly one violation per analysed part that breaks a constraint. */
  lemma {:induction false} OneViolationPerViolatingPart(infos: seq<PartInfo>)
    ensures |ViolationsOf(infos)| == NumViolating(infos)
  {
    if infos != [] {
      OneViolationPerViolatingPart(infos[..|infos| - 1]);
    }
  }

  /** The library test fails iff at least one analysed part breaks a constraint. */
  lemma FailsIffSomePartViolates(infos: seq<PartInfo>)
    ensures ViolationsOf(infos) != [] <==> exists k :: 0 <= k < |infos| && ViolationOf(infos[k]).Some?
  {
    if ViolationsOf(infos) != [] {
      ViolationsComeFromParts(infos);
      var k :| 0 <= k < |infos| && ViolationOf(infos[k]) == Some(ViolationsOf(infos)[0]);
    }
    ViolatingPartsAreReported(infos);
    if k :| 0 <= k < |infos| && ViolationOf(infos[k]).Some? {
      assert ViolationOf(infos[k]).value in ViolationsOf(infos);
    }
  }

  /** The analysis loop: classify each part with dimensions and collect its violation, if any. */
  method AnalyzeParts(lib: Library, parts: seq<PartInput>) returns (partsInfo: seq<PartInfo>, violations: seq<Violation>)
    requires WellFormedLibrary(lib)
    ensures partsInfo == AnalyzedParts(lib, parts)
    ensures violations == ViolationsOf(partsInfo)
  {
    partsInfo := [];
    violations := [];
    for i := 0 to |parts|
      invariant partsInfo == AnalyzedUpTo(lib, parts, i)
      invariant violations == ViolationsOf(partsInfo)
    {
      var p := parts[i];
      if p.dims.None? {
        continue;
      }
      var classification := Classify(lib, p.dims.value);
      var info := PartInfo(i + 1, p.name, p.dims.value, classification);
      assert (partsInfo + [info])[..|partsInfo|] == partsInfo;
      partsInfo := partsInfo + [info];
      var v := ViolationOf(info);
      if v.Some? {
        violations := violations + [v.value];
      }
    }
  }

  /** The summary loop: `part_summary[type_name] = part_summary.get(type_name, 0) + 1` per part. */
  method SummarizeParts(partsInfo: seq<PartInfo>) returns (summary: seq<(string, nat)>)
    ensures summary == SummaryOf(partsInfo)
  {
    summary := [];
    for k := 0 to |partsInfo|
      invariant summary == SummaryOf(partsInfo[..k])
    {
      assert partsInfo[..k + 1][..k] == partsInfo[..k];
      summary := Bump(summary, partsInfo[k].classification.TypeName());
    }
    assert partsInfo[..|partsInfo|] == partsInfo;
  }

  /** The result `test_parts_in_library` reports on the given parts. */
  function LibraryResult(lib: Library, parts: seq<PartInput>): (r: TestResult)
    requires WellFormedLibrary(lib)
    ensures r.name == LibraryTestName
  {
    if parts == [] then TestResult(LibraryTestName, Skipped, Text("No individual parts found to analyze"), NoDetails)
    else
      var infos := AnalyzedParts(lib, parts);
      var vs := ViolationsOf(infos);
      if vs != [] then
        TestResult(LibraryTestName, Failed, ViolationsFound(|vs|), LibraryViolations(vs, |infos|, infos))
      else
        TestResult(LibraryTestName, Passed, AllPartsMeetConstraints(|infos|, SummaryOf(infos)),
                   LibrarySummary(|infos|, SummaryOf(infos), infos))
  }

  /**
   * What the library test reports: skipped iff there are no parts; failed iff some analysed
   * part breaks a constraint, with one violation per such part; otherwise passed, with the
   * number of analysed parts of each type.
   */
  lemma LibraryResultMeaning(lib: Library, parts: seq<PartInput>)
    requires WellFormedLibrary(lib)
    ensures var r, infos := LibraryResult(lib, parts), AnalyzedParts(lib, parts);
      r.status != Error
      && (r.status == Skipped <==> parts == [])
      && (r.status == Failed <==> parts != [] && exists k :: 0 <= k < |infos| && ViolationOf(infos[k]).Some?)
    ensures var r, infos := LibraryResult(lib, parts), AnalyzedParts(lib, parts);
      r.status == Failed ==>
        r.message == ViolationsFound(NumViolating(infos))
        && r.details == LibraryViolations(ViolationsOf(infos), |infos|, infos)
    ensures var r, infos := LibraryResult(lib, parts), AnalyzedParts(lib, parts);
      r.status == Passed ==>
        r.details.LibrarySummary? && r.details.partsAnalyzed == |infos| && r.details.parts == infos
        && Sum(r.details.summary) == |infos|
        && forall t :: Lookup(r.details.summary, t) == NumOfType(infos, t)
  {
    var infos := AnalyzedParts(lib, parts);
    FailsIffSomePartViolates(infos);
    OneViolationPerViolatingPart(infos);
    SummaryCountsParts(infos);
  }

  /** `test_parts_in_library` on the parts extracted from one design. */
  method TestPartsInLibrary(lib: Library, parts: seq<PartInput>) returns (r: TestResult)
    requires WellFormedLibrary(lib)
    ensures r == LibraryResult(lib, parts)
  {
    if parts == [] {
      return TestResult(LibraryTestName, Skipped, Text("No individual parts found to analyze"), NoDetails);
    }
    var partsInfo, violations := AnalyzeParts(lib, parts);
    if violations != [] {
      return TestResult(LibraryTestName, Failed, ViolationsFound(|violations|),
                        LibraryViolations(violations, |partsInfo|, partsInfo));
    }
    var summary := SummarizeParts(partsInfo);
    r := TestResult(LibraryTestName, Passed, AllPartsMeetConstraints(|partsInfo|, summary),
                    LibrarySummary(|partsInfo|, summary, partsInfo));
  }
}
