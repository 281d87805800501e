/**
 * `test_no_intersections`: every unordered pair of parts is checked once, and a pair is
 * recorded when the volume of its boolean intersection exceeds 1.0 cubic mm.
 *
 * The geometry is abstract: `overlap(i, j)` is the volume of the intersection solid of
 * parts i and j (0-based, i < j), or `None` when there is no intersection solid or its
 * computation raised; `_get_solid_volume` giving 0.0 on failure is folded into the value.
 */
module Intersections {
  import opened Wrappers
  import opened TestResults

  const IntersectionTestName: string := "No Part Intersections"

  /** 1 cubic mm: overlaps up to this volume count as touching, not intersecting. */
  const VolumeThreshold: real := 1.0

  type Overlap = (nat, nat) -> Option<real>

  /** What checking the pair (i, j) appends to the list of intersections. */
  function Record(names: seq<string>, overlap: Overlap, i: nat, j: nat): (r: seq<Intersection>)
    requires i < j < |names|
    ensures |r| <= 1
  {
    match overlap(i, j)
    case Some(v) => if v > VolumeThreshold then [Intersection(i + 1, j + 1, names[i], names[j], v)] else []
    case None => []
  }

  /** The intersections recorded for the pairs (i, k) with i < k < j. */
  function RowUpTo(names: seq<string>, overlap: Overlap, i: nat, j: nat): seq<Intersection>
    requires i < |names| && j <= |names|
  {
    if j <= i + 1 then [] else RowUpTo(names, overlap, i, j - 1) + Record(names, overlap, i, j - 1)
  }

  /** The intersections recorded for every pair whose first part is below i. */
  function RowsUpTo(names: seq<string>, overlap: Overlap, i: nat): seq<Intersection>
    requires i <= |names|
  {
    if i == 0 then [] else RowsUpTo(names, overlap, i - 1) + RowUpTo(names, overlap, i - 1, |names|)
  }

  /** Every pair's intersection, in the order the nested loops visit the pairs. */
  function Recorded(names: seq<string>, overlap: Overlap): (r: seq<Intersection>)
    ensures forall p :: 0 <= p < |r| ==> Sound(names, overlap, r[p])
    ensures forall p, q :: 0 <= p < q < |r| ==> PairBefore(r[p], r[q])
  {
    RowsSound(names, overlap, |names|);
    RowsOrdered(names, overlap, |names|);
    RowsUpTo(names, overlap, |names|)
  }

  /** Number of pairs whose first part is below i, for n parts. */
  function PairsUpTo(n: nat, i: nat): nat
    requires i <= n
  {
    if i == 0 then 0 else PairsUpTo(n, i - 1) + (n - i)
  }

  lemma {:induction false} PairsUpToClosedForm(n: nat, i: nat)
    requires i <= n
    ensures 2 * PairsUpTo(n, i) == 2 * (i * n) - i * (i + 1)
  {
    if i > 0 {
      PairsUpToClosedForm(n, i - 1);
      assert (i - 1) * n == i * n - n;
      assert (i - 1) * i == i * i - i;
      assert i * (i + 1) == i * i + i;
    }
  }

  /** The nested loops visit n(n-1)/2 pairs. */
  lemma AllPairsCount(n: nat)
    ensures PairsUpTo(n, n) == n * (n - 1) / 2
  {
    PairsUpToClosedForm(n, n);
    assert 2 * PairsUpTo(n, n) == n * (n - 1);
  }

  /** `(part1, part2)` ordered lexicographically. */
  predicate PairBefore(a: Intersection, b: Intersection) {
    a.part1 < b.part1 || (a.part1 == b.part1 && a.part2 < b.part2)
  }

  /** A record is sound when it names a real pair i < j whose overlap exceeds the threshold. */
  ghost predicate Sound(names: seq<string>, overlap: Overlap, x: Intersection) {
    1 <= x.part1 < x.part2 <= |names|
    && x.name1 == names[x.part1 - 1] && x.name2 == names[x.part2 - 1]
    && overlap(x.part1 - 1, x.part2 - 1) == Some(x.volume) && x.volume > VolumeThreshold
  }

  /** An overlap of pair (i, j) large enough to be recorded, as its record. */
  ghost predicate Overlapping(names: seq<string>, overlap: Overlap, i: nat, j: nat, v: real) {
    i < j < |names| && overlap(i, j) == Some(v) && v > VolumeThreshold
  }

  lemma {:induction false} RowSound(names: seq<string>, overlap: Overlap, i: nat, j: nat)
    requires i < |names| && j <= |names|
    ensures forall p :: 0 <= p < |RowUpTo(names, overlap, i, j)| ==>
              Sound(names, overlap, RowUpTo(names, overlap, i, j)[p])
              && RowUpTo(names, overlap, i, j)[p].part1 == i + 1 && RowUpTo(names, overlap, i, j)[p].part2 <= j
  {
    if j > i + 1 {
      RowSound(names, overlap, i, j - 1);
      var prev := RowUpTo(names, overlap, i, j - 1);
      var row := RowUpTo(names, overlap, i, j);
      assert row == prev + Record(names, overlap, i, j - 1);
      forall p | 0 <= p < |row|
        ensures Sound(names, overlap, row[p]) && row[p].part1 == i + 1 && row[p].part2 <= j
      {
        if p < |prev| {
          assert row[p] == prev[p];
        }
      }
    }
  }

  /** A list ordered by `part2`, below b, followed by at most one record at b stays ordered. */
  lemma AppendLaterRecord(prev: seq<Intersection>, rec: seq<Intersection>, b: nat)
    requires forall p, q :: 0 <= p < q < |prev| ==> prev[p].part2 < prev[q].part2
    requires forall p :: 0 <= p < |prev| ==> prev[p].part2 < b
    requires |rec| <= 1 && forall p :: 0 <= p < |rec| ==> rec[p].part2 == b
    ensures forall p, q :: 0 <= p < q < |prev + rec| ==> (prev + rec)[p].part2 < (prev + rec)[q].part2
  {
    var row := prev + rec;
    forall p, q | 0 <= p < q < |row| ensures row[p].part2 < row[q].part2 {
      assert row[p] == prev[p];
      if q < |prev| {
        assert row[q] == prev[q];
      } else {
        assert row[q] == rec[0];
      }
    }
  }

  lemma {:induction false} RowOrdered(names: seq<string>, overlap: Overlap, i: nat, j: nat)
    requires i < |names| && j <= |names|
    ensures forall p, q :: 0 <= p < q < |RowUpTo(names, overlap, i, j)| ==>
              RowUpTo(names, overlap, i, j)[p].part2 < RowUpTo(names, overlap, i, j)[q].part2
  {
    if j > i + 1 {
      RowOrdered(names, overlap, i, j - 1);
      RowSound(names, overlap, i, j - 1);
      AppendLaterRecord(RowUpTo(names, overlap, i, j - 1), Record(names, overlap, i, j - 1), j);
    }
  }

  lemma {:induction false} RowComplete(names: seq<string>, overlap: Overlap, i: nat, j: nat)
    requires i < |names| && j <= |names|
    ensures forall k: nat, v: real :: k < j && Overlapping(names, overlap, i, k, v) ==>
              Intersection(i + 1, k + 1, names[i], names[k], v) in RowUpTo(names, overlap, i, j)
  {
    if j > i + 1 {
      RowComplete(names, overlap, i, j - 1);
      var prev := RowUpTo(names, overlap, i, j - 1);
      var rec := Record(names, overlap, i, j - 1);
      var row := RowUpTo(names, overlap, i, j);
      assert row == prev + rec;
      forall k: nat, v: real | k < j && Overlapping(names, overlap, i, k, v)
        ensures Intersection(i + 1, k + 1, names[i], names[k], v) in row
      {
        if k < j - 1 {
          assert Intersection(i + 1, k + 1, names[i], names[k], v) in prev;
        } else {
          assert rec == [Intersection(i + 1, k + 1, names[i], names[k], v)];
          assert row[|prev|] == rec[0];
        }
      }
    }
  }

  lemma {:induction false} RowsSound(names: seq<string>, overlap: Overlap, i: nat)
    requires i <= |names|
    ensures forall p :: 0 <= p < |RowsUpTo(names, overlap, i)| ==>
              Sound(names, overlap, RowsUpTo(names, overlap, i)[p]) && RowsUpTo(names, overlap, i)[p].part1 <= i
  {
    if i > 0 {
      RowsSound(names, overlap, i - 1);
      RowSound(names, overlap, i - 1, |names|);
      var prev := RowsUpTo(names, overlap, i - 1);
      var row := RowUpTo(names, overlap, i - 1, |names|);
      var rows := RowsUpTo(names, overlap, i);
      assert rows == prev + row;
      forall p | 0 <= p < |rows| ensures Sound(names, overlap, rows[p]) && rows[p].part1 <= i {
        if p < |prev| {
          assert rows[p] == prev[p];
        } else {
          assert rows[p] == row[p - |prev|];
        }
      }
    }
  }

  /** A lexicographically ordered list followed by one ordered row of a later first part stays ordered. */
  lemma AppendRowOrdered(prev: seq<Intersection>, row: seq<Intersection>, i: nat)
    requires forall p, q :: 0 <= p < q < |prev| ==> PairBefore(prev[p], prev[q])
    requires forall p :: 0 <= p < |prev| ==> prev[p].part1 < i
    requires forall p :: 0 <= p < |row| ==> row[p].part1 == i
    requires forall p, q :: 0 <= p < q < |row| ==> row[p].part2 < row[q].part2
    ensures forall p, q :: 0 <= p < q < |prev + row| ==> PairBefore((prev + row)[p], (prev + row)[q])
  {
    var rows := prev + row;
    forall p, q | 0 <= p < q < |rows| ensures PairBefore(rows[p], rows[q]) {
      if q < |prev| {
        assert rows[p] == prev[p] && rows[q] == prev[q];
      } else if p < |prev| {
        assert rows[p] == prev[p] && rows[q] == row[q - |prev|];
      } else {
        assert rows[p] == row[p - |prev|] && rows[q] == row[q - |prev|];
      }
    }
  }

  lemma {:induction false} RowsOrdered(names: seq<string>, overlap: Overlap, i: nat)
    requires i <= |names|
    ensures forall p, q :: 0 <= p < q < |RowsUpTo(names, overlap, i)| ==>
              PairBefore(RowsUpTo(names, overlap, i)[p], RowsUpTo(names, overlap, i)[q])
  {
    if i > 0 {
      RowsOrdered(names, overlap, i - 1);
      RowsSound(names, overlap, i - 1);
      RowSound(names, overlap, i - 1, |names|);
      RowOrdered(names, overlap, i - 1, |names|);
      AppendRowOrdered(RowsUpTo(names, overlap, i - 1), RowUpTo(names, overlap, i - 1, |names|), i);
    }
  }

  lemma {:induction false} RowsComplete(names: seq<string>, overlap: Overlap, i: nat)
    requires i <= |names|
    ensures forall a: nat, k: nat, v: real :: a < i && Overlapping(names, overlap, a, k, v) ==>
              Intersection(a + 1, k + 1, names[a], names[k], v) in RowsUpTo(names, overlap, i)
  {
    if i > 0 {
      RowsComplete(names, overlap, i - 1);
      RowComplete(names, overlap, i - 1, |names|);
      var prev := RowsUpTo(names, overlap, i - 1);
      var row := RowUpTo(names, overlap, i - 1, |names|);
      var rows := RowsUpTo(names, overlap, i);
      assert rows == prev + row;
      forall a: nat, k: nat, v: real | a < i && Overlapping(names, overlap, a, k, v)
        ensures Intersection(a + 1, k + 1, names[a], names[k], v) in rows
      {
        if a < i - 1 {
          assert Intersection(a + 1, k + 1, names[a], names[k], v) in prev;
        } else {
          assert Intersection(a + 1, k + 1, names[a], names[k], v) in row;
        }
      }
    }
  }

  /**
   * The recorded intersections are exactly the pairs i < j whose overlap volume exceeds
   * 1.0, each once, in increasing (i, j) order.
   */
  lemma RecordedIsExactlyOverlappingPairs(names: seq<string>, overlap: Overlap)
    ensures forall p :: 0 <= p < |Recorded(names, overlap)| ==> Sound(names, overlap, Recorded(names, overlap)[p])
    ensures forall p, q :: 0 <= p < q < |Recorded(names, overlap)| ==>
              PairBefore(Recorded(names, overlap)[p], Recorded(names, overlap)[q])
    ensures forall i: nat, j: nat, v: real :: Overlapping(names, overlap, i, j, v) ==>
              Intersection(i + 1, j + 1, names[i], names[j], v) in Recorded(names, overlap)
  {
    RowsSound(names, overlap, |names|);
    RowsOrdered(names, overlap, |names|);
    RowsComplete(names, overlap, |names|);
  }

  /** The inner loop of `test_no_intersections`: the pairs (i, j) with i < j, for one i. */
  method CheckRow(names: seq<string>, overlap: Overlap, i: nat) returns (found: seq<Intersection>, pairs: nat)
    requires i < |names|
    ensures found == RowUpTo(names, overlap, i, |names|)
    ensures pairs == |names| - i - 1
  {
    found := [];
    pairs := 0;
    for j := i + 1 to |names|
      invariant found == RowUpTo(names, overlap, i, j)
      invariant pairs == j - i - 1
    {
      pairs := pairs + 1;
      var volume := overlap(i, j);
      if volume.Some? && volume.value > VolumeThreshold {
        found := found + [Intersection(i + 1, j + 1, names[i], names[j], volume.value)];
      }
    }
  }

  /** The result `test_no_intersections` reports on parts with the given names and overlaps. */
  function IntersectionResult(names: seq<string>, overlap: Overlap): (r: TestResult)
    ensures r.name == IntersectionTestName
  {
    if |names| < 2 then
      TestResult(IntersectionTestName, Passed, Text("Less than 2 parts, no intersections possible"), NoDetails)
    else
      var found, pairs := Recorded(names, overlap), |names| * (|names| - 1) / 2;
      if found != [] then
        TestResult(IntersectionTestName, Failed, IntersectionsFound(|found|), IntersectionDetails(found, pairs))
      else
        TestResult(IntersectionTestName, Passed, NoIntersectionsFound(pairs), PairsChecked(pairs))
  }

  /**
   * What the intersection test reports: failed iff some pair of parts overlaps by more than
   * the threshold, listing exactly the overlapping pairs; otherwise passed; with two or more
   * parts it reports as checked exactly the pairs the nested loops visit.
   */
  lemma IntersectionResultMeaning(names: seq<string>, overlap: Overlap)
    ensures var r := IntersectionResult(names, overlap);
      (r.status == Passed || r.status == Failed)
      && (r.status == Failed <==> exists i: nat, j: nat, v: real :: Overlapping(names, overlap, i, j, v))
    ensures var r := IntersectionResult(names, overlap);
      r.status == Failed ==>
        r.details.IntersectionDetails? && r.details.intersections == Recorded(names, overlap)
        && r.message == IntersectionsFound(|Recorded(names, overlap)|)
    ensures var r := IntersectionResult(names, overlap);
      |names| >= 2 ==> (r.details.IntersectionDetails? || r.details.PairsChecked?)
                       && r.details.pairsChecked == PairsUpTo(|names|, |names|)
  {
    var found := Recorded(names, overlap);
    RecordedIsExactlyOverlappingPairs(names, overlap);
    if found != [] {
      var x := found[0];
      assert Overlapping(names, overlap, x.part1 - 1, x.part2 - 1, x.volume);
    }
    if |names| >= 2 {
      AllPairsCount(|names|);
    }
  }

  /** `test_no_intersections` on the parts extracted from one design. */
  method TestNoIntersections(names: seq<string>, overlap: Overlap) returns (r: TestResult)
    ensures r == IntersectionResult(names, overlap)
  {
    var n := |names|;
    if n < 2 {
      return TestResult(IntersectionTestName, Passed, Text("Less than 2 parts, no intersections possible"), NoDetails);
    }
    var intersections: seq<Intersection> := [];
    var checkedPairs: nat := 0;
    for i := 0 to n
      invariant intersections == RowsUpTo(names, overlap, i)
      invariant checkedPairs == PairsUpTo(n, i)
    {
      var found, pairs := CheckRow(names, overlap, i);
      intersections := intersections + found;
      checkedPairs := checkedPairs + pairs;
    }
    AllPairsCount(n);
    if intersections != [] {
      r := TestResult(IntersectionTestName, Failed, IntersectionsFound(|intersections|),
                      IntersectionDetails(intersections, checkedPairs));
    } else {
      r := TestResult(IntersectionTestName, Passed, NoIntersectionsFound(checkedPairs), PairsChecked(checkedPairs));
    }
  }
}
