/**
 * The deterministic set-up steps of `Main`: output path construction, the
 * choice of experiment and of transmitter distribution from configuration
 * strings, the sanitising of each distribution's parameters, the clamping
 * of a clustered or sine-wave transmitter into the placement square, and
 * the initial statistics array.
 *
 * `Float.parseFloat` is a parameter `parseFloat`, whose `None` stands for a
 * `NumberFormatException`; `File.separator` is the parameter `separator`.
 */
module Setup {
  import opened Options
  import opened JavaStrings

  /** The distance between two numbers on the line. */
  function Distance(a: real, b: real): real {
    if a < b then b - a else a - b
  }

  function Min(a: real, b: real): real {
    if a <= b then a else b
  }

  /* ---------------------------------------------------------------------
   * buildPath
   * ------------------------------------------------------------------- */

  /**
   * `buildPath`: the configured base path, trimmed, joined to `path` by the
   * separator; a base path that trims to nothing leaves `path` alone.
   */
  function BuildPath(basePath: string, separator: string, path: string): (r: string)
    ensures |path| <= |r| && r[|r| - |path|..] == path
    ensures r == path <==> forall c :: c in basePath ==> IsTrimmed(c)
    ensures r != path ==> r == Trim(basePath) + separator + path
  {
    var prefix := Trim(basePath);
    if |prefix| > 0 then prefix + separator + path else path
  }

  /** Trimming the base path first changes nothing. */
  lemma BuildPathTrimsBase(basePath: string, separator: string, path: string)
    ensures BuildPath(Trim(basePath), separator, path) == BuildPath(basePath, separator, path)
  {
    TrimIdempotent(basePath);
  }

  /* ---------------------------------------------------------------------
   * Experiment selection
   * ------------------------------------------------------------------- */

  datatype ExperimentKind = BinnedBasic | BinnedGrid | BinnedRecurGrid | Basic

  /** The experiment named by `experimentType`, ignoring case; anything else is the basic experiment. */
  function SelectExperiment(experimentType: string): (k: ExperimentKind)
    ensures k == BinnedBasic <==> EqualsIgnoreCase("binned", experimentType)
    ensures k == BinnedGrid <==> EqualsIgnoreCase("grid", experimentType)
    ensures k == BinnedRecurGrid <==> EqualsIgnoreCase("recursive", experimentType)
  {
    if EqualsIgnoreCase("binned", experimentType) then BinnedBasic
    else if EqualsIgnoreCase("grid", experimentType) then BinnedGrid
    else if EqualsIgnoreCase("recursive", experimentType) then BinnedRecurGrid
    else Basic
  }

  /** Names that differ only in the case of their letters select the same experiment. */
  lemma SelectExperimentIgnoresCase(t: string, u: string)
    requires EqualsIgnoreCase(t, u)
    ensures SelectExperiment(t) == SelectExperiment(u)
  {
    EqualsIgnoreCaseIsEquivalence("binned", t, u);
    EqualsIgnoreCaseIsEquivalence("binned", u, t);
    EqualsIgnoreCaseIsEquivalence("grid", t, u);
    EqualsIgnoreCaseIsEquivalence("grid", u, t);
    EqualsIgnoreCaseIsEquivalence("recursive", t, u);
    EqualsIgnoreCaseIsEquivalence("recursive", u, t);
    EqualsIgnoreCaseIsEquivalence(t, u, t);
  }

  /* ---------------------------------------------------------------------
   * Distribution selection
   * ------------------------------------------------------------------- */

  /** A transmitter distribution with the parameters read from its name. */
  datatype Distribution =
    | Clustered(probability: real, radius: real)
    | Rectangled(width: real)
    | Circled(width: real)
    | Sine(radius: real)
    | Uniform

  /**
   * The `i`th word of the distribution name, parsed, when it is present and
   * non-empty; otherwise the default.
   */
  function Parameter(parts: seq<string>, i: nat, default: real, parseFloat: string -> Option<real>): (r: Option<real>)
    ensures |parts| > i && |parts[i]| > 0 ==> r == parseFloat(parts[i])
    ensures !(|parts| > i && |parts[i]| > 0) ==> r == Some(default)
  {
    if |parts| > i && |parts[i]| > 0 then parseFloat(parts[i]) else Some(default)
  }

  /**
   * The clustered distribution from the words of its name: the probability
   * from the second word and, only when that is present, the radius from the
   * third.
   */
  function ClusteredFrom(parts: seq<string>, parseFloat: string -> Option<real>): (r: Option<Distribution>)
    ensures r.None? || r.value.Clustered?
    ensures r.None? ==> exists w :: w in parts && parseFloat(w).None?
    ensures !(|parts| > 1 && |parts[1]| > 0) ==> r == Some(Clustered(0.5, 0.1))
    ensures |parts| > 1 && |parts[1]| > 0 ==>
              (r.None? <==> parseFloat(parts[1]).None? || (|parts| > 2 && |parts[2]| > 0 && parseFloat(parts[2]).None?))
    ensures r.Some? && |parts| > 1 && |parts[1]| > 0 ==> parseFloat(parts[1]) == Some(r.value.probability)
    ensures r.Some? && |parts| > 2 && |parts[1]| > 0 && |parts[2]| > 0 ==> parseFloat(parts[2]) == Some(r.value.radius)
    ensures r.Some? && !(|parts| > 2 && |parts[1]| > 0 && |parts[2]| > 0) ==> r.value.radius == 0.1
  {
    if |parts| > 1 && |parts[1]| > 0 then
      assert parts[1] in parts;
      match parseFloat(parts[1])
      case None => None
      case Some(probability) =>
        assert |parts| > 2 ==> parts[2] in parts;
        match Parameter(parts, 2, 0.1, parseFloat)
        case None => None
        case Some(radius) => Some(Clustered(probability, radius))
    else Some(Clustered(0.5, 0.1))
  }

  /** The one parameter of a rectangled, circled or sine distribution. */
  function Width(d: Distribution): real
    requires d.Rectangled? || d.Circled? || d.Sine?
  {
    match d
    case Rectangled(w) => w
    case Circled(w) => w
    case Sine(r) => r
  }

  /**
   * `r` holds a one-parameter distribution whose parameter is the second
   * word, parsed, when there is a non-empty one, and `default` otherwise; it
   * is `None` exactly when that word does not parse.
   */
  predicate ReadsWidth(r: Option<Distribution>, parts: seq<string>, default: real,
                       parseFloat: string -> Option<real>)
  {
    if |parts| > 1 && |parts[1]| > 0 then
      (r.None? <==> parseFloat(parts[1]).None?)
      && (r.Some? ==> (r.value.Rectangled? || r.value.Circled? || r.value.Sine?)
                      && parseFloat(parts[1]) == Some(Width(r.value)))
    else r.Some? && (r.value.Rectangled? || r.value.Circled? || r.value.Sine?) && Width(r.value) == default
  }

  /**
   * The distribution named by `name`, chosen by prefix.  The clustered
   * distribution reads its radius only when it has read a probability.
   * `None` stands for the exception a malformed number raises.
   */
  function SelectDistribution(name: string, squareWidth: real, squareHeight: real,
                              parseFloat: string -> Option<real>): (r: Option<Distribution>)
    ensures StartsWith(name, "clustered") ==> r.None? || r.value.Clustered?
    ensures !StartsWith(name, "clustered") && StartsWith(name, "rectangled") ==> r.None? || r.value.Rectangled?
    ensures !StartsWith(name, "clustered") && !StartsWith(name, "rectangled") && StartsWith(name, "circled")
            ==> r.None? || r.value.Circled?
    ensures !StartsWith(name, "clustered") && !StartsWith(name, "rectangled") && !StartsWith(name, "circled")
            && StartsWith(name, "sine")
            ==> r.None? || r.value.Sine?
    ensures !StartsWith(name, "clustered") && !StartsWith(name, "rectangled") && !StartsWith(name, "circled")
            && !StartsWith(name, "sine")
            ==> r == Some(Uniform)
    ensures r.None? ==> exists w :: w in Split(name) && parseFloat(w).None?
    ensures StartsWith(name, "clustered") ==> r == ClusteredFrom(Split(name), parseFloat)
    ensures !StartsWith(name, "clustered") && StartsWith(name, "rectangled")
            ==> ReadsWidth(r, Split(name), Min(squareWidth, squareHeight) * 0.1, parseFloat)
    ensures !StartsWith(name, "clustered") && !StartsWith(name, "rectangled") && StartsWith(name, "circled")
            ==> ReadsWidth(r, Split(name), Min(squareWidth, squareHeight) * 0.1, parseFloat)
    ensures !StartsWith(name, "clustered") && !StartsWith(name, "rectangled") && !StartsWith(name, "circled")
            && StartsWith(name, "sine")
            ==> ReadsWidth(r, Split(name), Min(squareWidth, squareHeight) * 0.2, parseFloat)
  {
    var parts := Split(name);
    var side := Min(squareWidth, squareHeight);
    if StartsWith(name, "clustered") then
      ClusteredFrom(parts, parseFloat)
    else if StartsWith(name, "rectangled") then
      assert |parts| > 1 ==> parts[1] in parts;
      match Parameter(parts, 1, side * 0.1, parseFloat)
      case None => None
      case Some(width) => Some(Rectangled(width))
    else if StartsWith(name, "circled") then
      assert |parts| > 1 ==> parts[1] in parts;
      match Parameter(parts, 1, side * 0.1, parseFloat)
      case None => None
      case Some(width) => Some(Circled(width))
    else if StartsWith(name, "sine") then
      assert |parts| > 1 ==> parts[1] in parts;
      match Parameter(parts, 1, side * 0.2, parseFloat)
      case None => None
      case Some(radius) => Some(Sine(radius))
    else Some(Uniform)
  }

  /** A bare distribution name selects that distribution with its default parameters. */
  lemma DefaultClustered(squareWidth: real, squareHeight: real, parseFloat: string -> Option<real>)
    ensures SelectDistribution("clustered", squareWidth, squareHeight, parseFloat) == Some(Clustered(0.5, 0.1))
  {
    var name := "clustered";
    assert SpaceCount(name) == 0;
    assert Split(name) == [name];
    assert StartsWith(name, "clustered");
  }

  lemma DefaultRectangled(squareWidth: real, squareHeight: real, parseFloat: string -> Option<real>)
    ensures SelectDistribution("rectangled", squareWidth, squareHeight, parseFloat)
            == Some(Rectangled(Min(squareWidth, squareHeight) * 0.1))
  {
    var name := "rectangled";
    assert SpaceCount(name) == 0;
    assert Split(name) == [name];
    assert !StartsWith(name, "clustered");
    assert StartsWith(name, "rectangled");
  }

  lemma DefaultCircled(squareWidth: real, squareHeight: real, parseFloat: string -> Option<real>)
    ensures SelectDistribution("circled", squareWidth, squareHeight, parseFloat)
            == Some(Circled(Min(squareWidth, squareHeight) * 0.1))
  {
    var name := "circled";
    assert SpaceCount(name) == 0;
    assert Split(name) == [name];
    assert !StartsWith(name, "clustered") && !StartsWith(name, "rectangled");
    assert StartsWith(name, "circled");
  }

  lemma DefaultSine(squareWidth: real, squareHeight: real, parseFloat: string -> Option<real>)
    ensures SelectDistribution("sine", squareWidth, squareHeight, parseFloat)
            == Some(Sine(Min(squareWidth, squareHeight) * 0.2))
  {
    var name := "sine";
    assert SpaceCount(name) == 0;
    assert Split(name) == [name];
    assert !StartsWith(name, "clustered") && !StartsWith(name, "rectangled") && !StartsWith(name, "circled");
    assert StartsWith(name, "sine");
  }

  /** "clustered <p> <r>" selects the clustered distribution with both numbers. */
  lemma ClusteredParameters(a: string, b: string, p: real, q: real,
                            squareWidth: real, squareHeight: real, parseFloat: string -> Option<real>)
    requires IsWord(a) && IsWord(b) && a != [] && b != []
    requires parseFloat(a) == Some(p) && parseFloat(b) == Some(q)
    ensures SelectDistribution("clustered " + a + " " + b, squareWidth, squareHeight, parseFloat)
            == Some(Clustered(p, q))
  {
    var name := "clustered " + a + " " + b;
    ClusteredNameWords(a, b);
    SelectsClustered(name, squareWidth, squareHeight, parseFloat);
    ClusteredFromThree(a, b, p, q, parseFloat);
  }

  lemma ClusteredNameWords(a: string, b: string)
    requires IsWord(a) && IsWord(b) && b != []
    ensures StartsWith("clustered " + a + " " + b, "clustered")
    ensures Split("clustered " + a + " " + b) == ["clustered", a, b]
  {
    assert SpaceCount("clustered") == 0;
    SpaceFreeIsWord("clustered");
    SplitThreeWords("clustered", a, b);
    assert "clustered " + a + " " + b == "clustered" + " " + a + " " + b;
  }

  lemma SelectsClustered(name: string, squareWidth: real, squareHeight: real, parseFloat: string -> Option<real>)
    requires StartsWith(name, "clustered")
    ensures SelectDistribution(name, squareWidth, squareHeight, parseFloat) == ClusteredFrom(Split(name), parseFloat)
  {
  }

  lemma ClusteredFromThree(a: string, b: string, p: real, q: real, parseFloat: string -> Option<real>)
    requires a != [] && b != []
    requires parseFloat(a) == Some(p) && parseFloat(b) == Some(q)
    ensures ClusteredFrom(["clustered", a, b], parseFloat) == Some(Clustered(p, q))
  {
  }

  /** "clustered <p>" reads the probability and keeps the default radius. */
  lemma ClusteredProbabilityOnly(a: string, p: real,
                                 squareWidth: real, squareHeight: real, parseFloat: string -> Option<real>)
    requires IsWord(a) && a != []
    requires parseFloat(a) == Some(p)
    ensures SelectDistribution("clustered " + a, squareWidth, squareHeight, parseFloat)
            == Some(Clustered(p, 0.1))
  {
    var name := "clustered " + a;
    assert SpaceCount("clustered") == 0;
    SpaceFreeIsWord("clustered");
    SplitTwoWords("clustered", a);
    assert name == "clustered" + " " + a;
    assert name[..9] == "clustered";
    assert StartsWith(name, "clustered");
    assert |Split(name)| == 2 && Split(name)[1] == a;
  }

  /** "sine <r>" selects the sine-wave distribution with that radius. */
  lemma SineParameter(a: string, v: real,
                      squareWidth: real, squareHeight: real, parseFloat: string -> Option<real>)
    requires IsWord(a) && a != []
    requires parseFloat(a) == Some(v)
    ensures SelectDistribution("sine " + a, squareWidth, squareHeight, parseFloat) == Some(Sine(v))
  {
    var name := "sine " + a;
    assert SpaceCount("sine") == 0;
    SpaceFreeIsWord("sine");
    SplitTwoWords("sine", a);
    assert name == "sine" + " " + a;
    assert name[..4] == "sine";
    assert name[0] == 's';
    assert !StartsWith(name, "clustered") && !StartsWith(name, "rectangled") && !StartsWith(name, "circled");
    assert StartsWith(name, "sine");
    assert |Split(name)| == 2 && Split(name)[1] == a;
  }

  /** "rectangled <w>" selects the rectangled distribution with that width. */
  lemma RectangledParameter(a: string, v: real,
                            squareWidth: real, squareHeight: real, parseFloat: string -> Option<real>)
    requires IsWord(a) && a != []
    requires parseFloat(a) == Some(v)
    ensures SelectDistribution("rectangled " + a, squareWidth, squareHeight, parseFloat) == Some(Rectangled(v))
  {
    var name := "rectangled " + a;
    RectangledNameWords(a);
    var r := SelectDistribution(name, squareWidth, squareHeight, parseFloat);
    assert ReadsWidth(r, Split(name), Min(squareWidth, squareHeight) * 0.1, parseFloat);
    assert r.Some? && r.value.Rectangled? && Width(r.value) == v;
  }

  lemma RectangledNameWords(a: string)
    requires IsWord(a) && a != []
    ensures !StartsWith("rectangled " + a, "clustered") && StartsWith("rectangled " + a, "rectangled")
    ensures Split("rectangled " + a) == ["rectangled", a]
  {
    var name := "rectangled " + a;
    assert SpaceCount("rectangled") == 0;
    SpaceFreeIsWord("rectangled");
    SplitTwoWords("rectangled", a);
    assert name == "rectangled" + " " + a;
    assert name[..10] == "rectangled";
    assert name[0] == 'r';
  }

  /** "circled <w>" selects the circled distribution with that width. */
  lemma CircledParameter(a: string, v: real,
                         squareWidth: real, squareHeight: real, parseFloat: string -> Option<real>)
    requires IsWord(a) && a != []
    requires parseFloat(a) == Some(v)
    ensures SelectDistribution("circled " + a, squareWidth, squareHeight, parseFloat) == Some(Circled(v))
  {
    var name := "circled " + a;
    CircledNameWords(a);
    var r := SelectDistribution(name, squareWidth, squareHeight, parseFloat);
    assert ReadsWidth(r, Split(name), Min(squareWidth, squareHeight) * 0.1, parseFloat);
    assert r.Some? && r.value.Circled? && Width(r.value) == v;
  }

  lemma CircledNameWords(a: string)
    requires IsWord(a) && a != []
    ensures !StartsWith("circled " + a, "clustered") && !StartsWith("circled " + a, "rectangled")
    ensures StartsWith("circled " + a, "circled")
    ensures Split("circled " + a) == ["circled", a]
  {
    var name := "circled " + a;
    assert SpaceCount("circled") == 0;
    SpaceFreeIsWord("circled");
    SplitTwoWords("circled", a);
    assert name == "circled" + " " + a;
    assert name[..7] == "circled";
    assert name[1] == 'i';
  }

  /* ---------------------------------------------------------------------
   * Parameter sanitising in the generators
   * ------------------------------------------------------------------- */

  /** The clustered generator's probability, forced into [0, 1]: the nearest point of it. */
  function ClusterProbability(clusterProb: real): (r: real)
    ensures 0.0 <= r <= 1.0
    ensures 0.0 <= clusterProb <= 1.0 ==> r == clusterProb
    ensures forall q :: 0.0 <= q <= 1.0 ==> Distance(r, clusterProb) <= Distance(q, clusterProb)
  {
    if clusterProb < 0.0 then 0.0
    else if clusterProb > 1.0 then 1.0
    else clusterProb
  }

  /**
   * The clustered generator's radius fraction: a negative one falls back to
   * 0.1, one above 1 becomes 1.
   */
  function ClusterRadius(radiusPct: real): (r: real)
    ensures 0.0 <= r <= 1.0
    ensures 0.0 <= radiusPct <= 1.0 ==> r == radiusPct
    ensures radiusPct < 0.0 ==> r == 0.1
    ensures radiusPct > 1.0 ==> r == 1.0
  {
    if radiusPct < 0.0 then 0.1
    else if radiusPct > 1.0 then 1.0
    else radiusPct
  }

  /** Sanitising a sanitised parameter changes nothing. */
  lemma ClusterSanitisingIdempotent(clusterProb: real, radiusPct: real)
    ensures ClusterProbability(ClusterProbability(clusterProb)) == ClusterProbability(clusterProb)
    ensures ClusterRadius(ClusterRadius(radiusPct)) == ClusterRadius(radiusPct)
  {
  }

  /** A larger requested probability never gives a smaller one. */
  lemma ClusterProbabilityMonotone(p: real, q: real)
    requires p <= q
    ensures ClusterProbability(p) <= ClusterProbability(q)
  {
  }

  /**
   * The band width of the rectangled and circled generators: a non-positive
   * width becomes 1, and no width exceeds half the shorter side of the square.
   */
  function BandWidth(width: real, squareWidth: real, squareHeight: real): (r: real)
    ensures r <= Min(squareWidth / 2.0, squareHeight / 2.0)
    ensures 0.0 < width <= Min(squareWidth / 2.0, squareHeight / 2.0) ==> r == width
    ensures width <= 0.0 ==> r == Min(1.0, Min(squareWidth / 2.0, squareHeight / 2.0))
    ensures Min(squareWidth / 2.0, squareHeight / 2.0) > 0.0 ==> r > 0.0
    ensures width > Min(squareWidth / 2.0, squareHeight / 2.0) ==> r == Min(squareWidth / 2.0, squareHeight / 2.0)
  {
    var used := if width <= 0.0 then 1.0 else width;
    if used > Min(squareWidth / 2.0, squareHeight / 2.0) then Min(squareWidth / 2.0, squareHeight / 2.0)
    else used
  }

  /** Once the square has positive sides, the band width is a fixed point of its own sanitising. */
  lemma BandWidthIdempotent(width: real, squareWidth: real, squareHeight: real)
    requires Min(squareWidth / 2.0, squareHeight / 2.0) > 0.0
    ensures BandWidth(BandWidth(width, squareWidth, squareHeight), squareWidth, squareHeight)
            == BandWidth(width, squareWidth, squareHeight)
  {
  }

  /**
   * The sine-wave generator's radius: anything outside [0, a quarter of the
   * shorter side] becomes that quarter.
   */
  function SineRadius(radius: real, squareWidth: real, squareHeight: real): (r: real)
    ensures r <= Min(squareWidth / 4.0, squareHeight / 4.0)
    ensures 0.0 <= radius <= Min(squareWidth / 4.0, squareHeight / 4.0) ==> r == radius
    ensures !(0.0 <= radius <= Min(squareWidth / 4.0, squareHeight / 4.0))
            ==> r == Min(squareWidth / 4.0, squareHeight / 4.0)
    ensures Min(squareWidth / 4.0, squareHeight / 4.0) >= 0.0 ==> r >= 0.0
  {
    var bound := Min(squareWidth / 4.0, squareHeight / 4.0);
    if radius < 0.0 then bound
    else if radius > bound then bound
    else radius
  }

  lemma SineRadiusIdempotent(radius: real, squareWidth: real, squareHeight: real)
    requires Min(squareWidth / 4.0, squareHeight / 4.0) >= 0.0
    ensures SineRadius(SineRadius(radius, squareWidth, squareHeight), squareWidth, squareHeight)
            == SineRadius(radius, squareWidth, squareHeight)
  {
  }

  /* ---------------------------------------------------------------------
   * Keeping a generated coordinate inside the placement square
   * ------------------------------------------------------------------- */

  /**
   * The clamp applied to each coordinate of a clustered or sine-wave
   * transmitter, as written: the square spans [offset, offset + size], but a
   * coordinate beyond its far edge is set to `size`.
   */
  function SquareClampAsWritten(v: real, size: real, offset: real): (r: real)
    ensures offset <= v <= size + offset ==> r == v
    ensures v < offset && v <= size + offset ==> r == offset
    ensures v > size + offset ==> r == size
  {
    if v > size + offset then size
    else if v < offset then offset
    else v
  }

  /**
   * When the square does not start at the origin's side of its own width
   * (`size < offset`), a coordinate beyond the far edge is moved out of the
   * square altogether.
   */
  lemma AsWrittenLeavesSquare(v: real, size: real, offset: real)
    requires size >= 0.0 && v > size + offset && size < offset
    ensures !(offset <= SquareClampAsWritten(v, size, offset) <= offset + size)
  {
  }

  /** The example of a 100-wide square centred in a 400-wide universe. */
  lemma AsWrittenExample()
    ensures SquareClampAsWritten(260.0, 100.0, 150.0) == 100.0
    ensures !(150.0 <= SquareClampAsWritten(260.0, 100.0, 150.0) <= 250.0)
  {
    AsWrittenLeavesSquare(260.0, 100.0, 150.0);
  }

  /**
   * The sine-wave generator's version: with the same square, an x just past
   * the far edge (the wave reaches at most 251.25 there) is moved to 100.
   */
  lemma AsWrittenSineExample()
    ensures SquareClampAsWritten(251.0, 100.0, 150.0) == 100.0
    ensures !(150.0 <= SquareClampAsWritten(251.0, 100.0, 150.0) <= 250.0)
  {
    AsWrittenLeavesSquare(251.0, 100.0, 150.0);
  }

  /** The clamp as intended: the nearest point of [offset, offset + size]. */
  function SquareClamp(v: real, size: real, offset: real): (r: real)
    requires size >= 0.0
    ensures offset <= r <= offset + size
    ensures offset <= v <= offset + size ==> r == v
    ensures forall q :: offset <= q <= offset + size ==> Distance(r, v) <= Distance(q, v)
  {
    if v > size + offset then size + offset
    else if v < offset then offset
    else v
  }

  /** The intended clamp agrees with the written one exactly when the far edge is not crossed, or the square starts at 0. */
  lemma ClampsAgree(v: real, size: real, offset: real)
    requires size >= 0.0
    ensures SquareClamp(v, size, offset) == SquareClampAsWritten(v, size, offset)
            <==> v <= size + offset || offset == 0.0
  {
  }

  lemma SquareClampIdempotent(v: real, size: real, offset: real)
    requires size >= 0.0
    ensures SquareClamp(SquareClamp(v, size, offset), size, offset) == SquareClamp(v, size, offset)
  {
  }

  /* ---------------------------------------------------------------------
   * The statistics array
   * ------------------------------------------------------------------- */

  /** The two fields of a trial's statistics record that set-up fills in. */
  class ExperimentStats {
    var numberReceivers: int
    var numberTransmitters: int

    constructor ()
      ensures numberReceivers == 0 && numberTransmitters == 0
    {
      numberReceivers := 0;
      numberTransmitters := 0;
    }
  }

  /**
   * One fresh record per receiver count 1..numReceivers, each recording the
   * number of transmitters: the configured number when positions are
   * generated, else the number loaded from file.
   */
  method InitStats(numReceivers: nat, generateTransmitters: bool, configuredTransmitters: int,
                   loadedTransmitters: nat)
    returns (stats: array<ExperimentStats?>)
    ensures fresh(stats) && stats.Length == numReceivers
    ensures forall i :: 0 <= i < stats.Length ==>
              && stats[i] != null && fresh(stats[i])
              && stats[i].numberReceivers == i + 1
              && stats[i].numberTransmitters
                 == (if generateTransmitters then configuredTransmitters else loadedTransmitters)
    ensures forall i, j :: 0 <= i < j < stats.Length ==> stats[i] != stats[j]
  {
    stats := new ExperimentStats?[numReceivers];
    for i := 0 to numReceivers
      invariant forall k :: 0 <= k < i ==>
                  && stats[k] != null && fresh(stats[k])
                  && stats[k].numberReceivers == k + 1
                  && stats[k].numberTransmitters
                     == (if generateTransmitters then configuredTransmitters else loadedTransmitters)
      invariant forall k, l :: 0 <= k < l < i ==> stats[k] != stats[l]
    {
      var s := new ExperimentStats();
      s.numberReceivers := i + 1;
      s.numberTransmitters := if generateTransmitters then configuredTransmitters else loadedTransmitters;
      stats[i] := s;
    }
  }
}
