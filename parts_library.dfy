/**
 * The parts library and the classification of one part from its sorted bounding-box
 * dimensions (`_classify_part` and `_is_valid_beam_length` in the test service).
 *
 * Unit: every length is an integer number of hundredths of a millimetre. Dimensions reach
 * the classifier already rounded to two decimals, so this unit represents them exactly.
 */
module PartsLibrary {
  import opened Wrappers

  /** 1.0 mm: cross-section tolerance and the default beam-length tolerance. */
  const Tolerance: int := 100
  /** 0.5 mm: tolerance on plywood thickness. */
  const PlywoodThicknessTolerance: int := 50

  /** Defaults used when a beam or plywood definition lacks the key. */
  const DefaultMinLength: int := 10000
  const DefaultMaxLength: int := 50000
  const DefaultLengthIncrement: int := 5000
  const DefaultPlywoodThickness: int := 700
  const DefaultPlywoodMaxWidth: int := 50000
  const DefaultPlywoodMaxHeight: int := 50000

  /** A beam entry of the library; the optional keys fall back to the defaults above. */
  datatype BeamDef = BeamDef(
    name: string,
    width: int,
    height: int,
    minLength: Option<int>,
    maxLength: Option<int>,
    lengthIncrement: Option<int>)
  {
    function MinLength(): int { minLength.GetOr(DefaultMinLength) }
    function MaxLength(): int { maxLength.GetOr(DefaultMaxLength) }
    function Increment(): int { lengthIncrement.GetOr(DefaultLengthIncrement) }
  }

  /** The plywood entry; `None` in the library stands for a missing or empty dictionary. */
  datatype PlywoodDef = PlywoodDef(thickness: Option<int>, maxWidth: Option<int>, maxHeight: Option<int>)
  {
    function Thickness(): int { thickness.GetOr(DefaultPlywoodThickness) }
    function MaxWidth(): int { maxWidth.GetOr(DefaultPlywoodMaxWidth) }
    function MaxHeight(): int { maxHeight.GetOr(DefaultPlywoodMaxHeight) }
  }

  /** The parts library: beams in library order, and an optional plywood entry. */
  datatype Library = Library(beams: seq<BeamDef>, plywood: Option<PlywoodDef>)

  /**
   * A library the source can process without raising: every beam increment is nonzero
   * (a zero increment divides by zero), and no beam is named like the two non-beam
   * classifications, which the violation check distinguishes by their type name.
   */
  predicate WellFormedLibrary(lib: Library) {
    forall i :: 0 <= i < |lib.beams| ==>
      lib.beams[i].Increment() != 0 && lib.beams[i].name != "plywood" && lib.beams[i].name != "unknown"
  }

  /** Bounding-box dimensions sorted as [smallest, middle, largest]. */
  datatype Dims = Dims(small: int, middle: int, large: int)

  /** The classification of one part. */
  datatype Classification =
    | Beam(typeName: string, crossSection: (int, int), length: int, validLength: bool, beamDef: BeamDef)
    | Plywood(thickness: int, width: int, height: int, validSize: bool)
    | Unknown(dimensions: Dims)
  {
    /** The `type` key of the classification dictionary. */
    function TypeName(): string {
      match this
      case Beam(name, _, _, _, _) => name
      case Plywood(_, _, _, _) => "plywood"
      case Unknown(_) => "unknown"
    }
  }

  function Abs(x: int): int { if x < 0 then -x else x }

  /** Python's `a % b` on numbers: the remainder takes the sign of the divisor, and a - r is a multiple of b. */
  function PyMod(a: int, b: int): (r: int)
    requires b != 0
    ensures b > 0 ==> 0 <= r < b
    ensures b < 0 ==> b < r <= 0
    ensures (a - r) % Abs(b) == 0
  {
    if b > 0 then
      assert a - a % b == (a / b) * b;
      MultipleHasNoRemainder(a / b, b);
      a % b
    else
      var q := (-a) / (-b);
      assert a + (-a) % (-b) == (-q) * (-b);
      MultipleHasNoRemainder(-q, -b);
      -((-a) % (-b))
  }

  lemma MultipleHasNoRemainder(q: int, b: int)
    requires b > 0
    ensures (q * b) % b == 0
  {
    DivModUnique(q * b, b, q, 0);
  }

  /**
   * `_is_valid_beam_length`: the length must lie within [min - tolerance, max + tolerance]
   * and its offset from min must lie within tolerance of a multiple of the increment.
   */
  function IsValidBeamLength(length: int, beam: BeamDef, tolerance: int): (ok: bool)
    requires beam.MinLength() - tolerance <= length <= beam.MaxLength() + tolerance ==> beam.Increment() != 0
    ensures length < beam.MinLength() - tolerance ==> !ok
    ensures length > beam.MaxLength() + tolerance ==> !ok
  {
    var minL, maxL, inc := beam.MinLength(), beam.MaxLength(), beam.Increment();
    if length < minL - tolerance || length > maxL + tolerance then false
    else
      var remainder := PyMod(length - minL, inc);
      remainder <= tolerance || remainder >= inc - tolerance
  }

  /** True iff `length` is within `tolerance` of `base + k * inc` for some integer k. */
  ghost predicate NearGrid(length: int, base: int, inc: int, tolerance: int) {
    exists k: int :: Abs(length - (base + k * inc)) <= tolerance
  }

  /** The beam's cross-section, sorted (`sorted([width, height])`). */
  function SortedCrossSection(beam: BeamDef): (p: (int, int))
    ensures p.0 <= p.1
    ensures (p.0, p.1) == (beam.width, beam.height) || (p.0, p.1) == (beam.height, beam.width)
  {
    if beam.width <= beam.height then (beam.width, beam.height) else (beam.height, beam.width)
  }

  /** The two smaller sorted dimensions each lie within 1.0 mm of the sorted cross-section. */
  predicate BeamMatches(beam: BeamDef, dims: Dims) {
    var cs := SortedCrossSection(beam);
    Abs(dims.small - cs.0) <= Tolerance && Abs(dims.middle - cs.1) <= Tolerance
  }

  /** The index of the first beam, at or after `from`, whose cross-section matches. */
  function FirstBeamMatch(beams: seq<BeamDef>, dims: Dims, from: nat): (r: Option<nat>)
    requires from <= |beams|
    decreases |beams| - from
    ensures r.Some? ==> from <= r.value < |beams| && BeamMatches(beams[r.value], dims)
    ensures r.Some? ==> forall j :: from <= j < r.value ==> !BeamMatches(beams[j], dims)
    ensures r.None? ==> forall j :: from <= j < |beams| ==> !BeamMatches(beams[j], dims)
  {
    if from == |beams| then None
    else if BeamMatches(beams[from], dims) then Some(from)
    else FirstBeamMatch(beams, dims, from + 1)
  }

  /** `_classify_part`: beams in library order first, then plywood, else unknown. */
  function ClassifyPart(lib: Library, dims: Dims): (c: Classification)
    requires WellFormedLibrary(lib)
    ensures c.Beam? ==> c.beamDef in lib.beams && BeamMatches(c.beamDef, dims) && c.length == dims.large
    ensures c.Plywood? ==> lib.plywood.Some? && c.thickness == dims.small
    ensures c.TypeName() == "plywood" <==> c.Plywood?
    ensures c.TypeName() == "unknown" <==> c.Unknown?
  {
    match FirstBeamMatch(lib.beams, dims, 0)
    case Some(i) =>
      var beam := lib.beams[i];
      Beam(beam.name, (beam.width, beam.height), dims.large,
           IsValidBeamLength(dims.large, beam, Tolerance), beam)
    case None =>
      if lib.plywood.Some? && Abs(dims.small - lib.plywood.value.Thickness()) <= PlywoodThicknessTolerance then
        var ply := lib.plywood.value;
        Plywood(dims.small, dims.middle, dims.large,
                dims.middle <= ply.MaxWidth() && dims.large <= ply.MaxHeight())
      else
        Unknown(dims)
  }

  /** The beam loop of `_classify_part`: the index of the first beam whose cross-section matches. */
  method FindBeam(beams: seq<BeamDef>, dims: Dims) returns (r: Option<nat>)
    ensures r == FirstBeamMatch(beams, dims, 0)
  {
    for i := 0 to |beams|
      invariant FirstBeamMatch(beams, dims, 0) == FirstBeamMatch(beams, dims, i)
    {
      if BeamMatches(beams[i], dims) {
        return Some(i);
      }
    }
    return None;
  }

  /** `_classify_part`, run as the source runs it: the beam loop, then the plywood check. */
  method Classify(lib: Library, dims: Dims) returns (c: Classification)
    requires WellFormedLibrary(lib)
    ensures c == ClassifyPart(lib, dims)
  {
    var found := FindBeam(lib.beams, dims);
    if found.Some? {
      var beam := lib.beams[found.value];
      return Beam(beam.name, (beam.width, beam.height), dims.large,
                  IsValidBeamLength(dims.large, beam, Tolerance), beam);
    }
    if lib.plywood.Some? && Abs(dims.small - lib.plywood.value.Thickness()) <= PlywoodThicknessTolerance {
      var ply := lib.plywood.value;
      var validSize := dims.middle <= ply.MaxWidth() && dims.large <= ply.MaxHeight();
      return Plywood(dims.small, dims.middle, dims.large, validSize);
    }
    return Unknown(dims);
  }

  /** What `_classify_part` decides, stated against the library and the dimensions. */
  lemma ClassifyPartSpec(lib: Library, dims: Dims)
    requires WellFormedLibrary(lib)
    // a beam is chosen iff some beam's cross-section matches, and then the first one in library order
    ensures ClassifyPart(lib, dims).Beam? <==> exists i :: 0 <= i < |lib.beams| && BeamMatches(lib.beams[i], dims)
    ensures ClassifyPart(lib, dims).Beam? ==>
              exists i :: 0 <= i < |lib.beams| && BeamMatches(lib.beams[i], dims)
                && (forall j :: 0 <= j < i ==> !BeamMatches(lib.beams[j], dims))
                && ClassifyPart(lib, dims).beamDef == lib.beams[i]
    ensures ClassifyPart(lib, dims).Beam? ==>
              var c := ClassifyPart(lib, dims);
              c.typeName == c.beamDef.name && c.length == dims.large
              && c.crossSection == (c.beamDef.width, c.beamDef.height)
              && c.validLength == IsValidBeamLength(dims.large, c.beamDef, Tolerance)
    // plywood only when no beam matched and the thickness is within 0.5 mm
    ensures ClassifyPart(lib, dims).Plywood? <==>
              (forall i :: 0 <= i < |lib.beams| ==> !BeamMatches(lib.beams[i], dims))
              && lib.plywood.Some?
              && Abs(dims.small - lib.plywood.value.Thickness()) <= PlywoodThicknessTolerance
    ensures ClassifyPart(lib, dims).Plywood? ==>
              ClassifyPart(lib, dims) == Plywood(dims.small, dims.middle, dims.large,
                dims.middle <= lib.plywood.value.MaxWidth() && dims.large <= lib.plywood.value.MaxHeight())
    // otherwise unknown, with the dimensions unchanged
    ensures ClassifyPart(lib, dims).Unknown? ==> ClassifyPart(lib, dims).dimensions == dims
    // the type name tells the three kinds apart
    ensures ClassifyPart(lib, dims).TypeName() == "plywood" <==> ClassifyPart(lib, dims).Plywood?
    ensures ClassifyPart(lib, dims).TypeName() == "unknown" <==> ClassifyPart(lib, dims).Unknown?
  {
  }

  /** Euclidean division has a unique quotient and remainder. */
  lemma {:induction false} DivModUnique(a: int, b: int, q: int, r: int)
    requires b > 0 && 0 <= r < b && a == q * b + r
    ensures a / b == q && a % b == r
  {
    var q', r' := a / b, a % b;
    assert (q - q') * b == r' - r;
    if q - q' > 0 {
      MulAtLeastDivisor(q - q', b);
    } else if q - q' < 0 {
      MulAtLeastDivisor(q' - q, b);
    }
  }

  lemma {:induction false} MulAtLeastDivisor(d: int, b: int)
    requires d >= 1 && b > 0
    ensures d * b >= b
  {
    assert d * b == (d - 1) * b + b;
  }

  /** Every on-grid length min + k*inc within [min, max] is accepted. */
  lemma OnGridLengthAccepted(beam: BeamDef, k: int)
    requires beam.Increment() != 0
    requires beam.MinLength() <= beam.MinLength() + k * beam.Increment() <= beam.MaxLength()
    ensures IsValidBeamLength(beam.MinLength() + k * beam.Increment(), beam, Tolerance)
  {
    var inc := beam.Increment();
    if inc > 0 {
      DivModUnique(k * inc, inc, k, 0);
    } else {
      DivModUnique(-(k * inc), -inc, k, 0);
    }
  }

  /**
   * For a positive increment, the remainder test means exactly: the length is in range
   * and lies within `tolerance` of some grid point min + k*inc.
   */
  lemma BeamLengthNearGrid(length: int, beam: BeamDef, tolerance: int)
    requires beam.Increment() > 0
    ensures IsValidBeamLength(length, beam, tolerance) <==>
              beam.MinLength() - tolerance <= length <= beam.MaxLength() + tolerance
              && NearGrid(length, beam.MinLength(), beam.Increment(), tolerance)
  {
    var minL, inc := beam.MinLength(), beam.Increment();
    var d := length - minL;
    var q, rem := d / inc, d % inc;
    assert d == q * inc + rem;
    if IsValidBeamLength(length, beam, tolerance) {
      if rem <= tolerance {
        assert Abs(length - (minL + q * inc)) <= tolerance;
      } else {
        assert length - (minL + (q + 1) * inc) == rem - inc;
        assert Abs(length - (minL + (q + 1) * inc)) <= tolerance;
      }
    }
    if minL - tolerance <= length <= beam.MaxLength() + tolerance && NearGrid(length, minL, inc, tolerance) {
      if inc > 2 * tolerance {
        var k :| Abs(length - (minL + k * inc)) <= tolerance;
        var e := d - k * inc;
        if e >= 0 {
          DivModUnique(d, inc, k, e);
        } else {
          assert d == (k - 1) * inc + (inc + e);
          DivModUnique(d, inc, k - 1, inc + e);
        }
      }
    }
  }

  /** A negative increment leaves a non-positive remainder, so every in-range length passes. */
  lemma NegativeIncrementAcceptsRange(length: int, beam: BeamDef, tolerance: int)
    requires beam.Increment() < 0 && tolerance >= 0
    ensures IsValidBeamLength(length, beam, tolerance) <==>
              beam.MinLength() - tolerance <= length <= beam.MaxLength() + tolerance
  {
  }

  /** With the library's own defaults, 150.0 mm is a valid beam length and 175.0 mm is not. */
  lemma DefaultGridExamples(name: string, w: int, h: int)
    ensures var beam := BeamDef(name, w, h, None, None, None);
            IsValidBeamLength(15000, beam, Tolerance) && !IsValidBeamLength(17500, beam, Tolerance)
            && IsValidBeamLength(50100, beam, Tolerance) && !IsValidBeamLength(50101, beam, Tolerance)
  {
  }
}
