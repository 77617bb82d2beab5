/** The generator's configuration record: its fields and defaults, validation,
    direction-weight normalization, grid-position helpers, the dictionary form
    and the named presets. */
module MazeConfig {
  import opened Outcomes
  import opened Cells
  import Text

  /** AlgorithmType and its string values. */
  datatype Algorithm = RecursiveBacktracking | Probabilistic | Eller | Kruskal {
    function Value(): string {
      match this
      case RecursiveBacktracking => "recursive_backtracking"
      case Probabilistic => "probabilistic"
      case Eller => "eller"
      case Kruskal => "kruskal"
    }
  }

  /** AlgorithmType(value): the member with that value, or the ValueError. */
  function AlgorithmFromValue(v: string): (r: Result<Algorithm>)
    ensures r.Ok? ==> r.value.Value() == v
    ensures forall a: Algorithm :: a.Value() == v ==> r == Ok(a)
    ensures r.Err? <==> v !in {"recursive_backtracking", "probabilistic", "eller", "kruskal"}
  {
    if v == "recursive_backtracking" then Ok(RecursiveBacktracking)
    else if v == "probabilistic" then Ok(Probabilistic)
    else if v == "eller" then Ok(Eller)
    else if v == "kruskal" then Ok(Kruskal)
    else Err("'" + v + "' is not a valid AlgorithmType")
  }

  /** A weight dictionary: its entries in insertion order, keys unique. */
  type Weights = seq<(string, real)>

  predicate UniqueKeys(w: Weights) {
    forall i, j :: 0 <= i < j < |w| ==> w[i].0 != w[j].0
  }

  predicate HasKey(w: Weights, k: string) {
    exists i :: 0 <= i < |w| && w[i].0 == k
  }

  function Keys(w: Weights): (ks: seq<string>)
    ensures |ks| == |w| && forall i :: 0 <= i < |w| ==> ks[i] == w[i].0
  {
    if w == [] then [] else [w[0].0] + Keys(w[1..])
  }

  /** sum(w.values()). */
  function Sum(w: Weights): real {
    if w == [] then 0.0 else w[0].1 + Sum(w[1..])
  }

  predicate InUnit(x: real) {
    0.0 <= x <= 1.0
  }

  const RequiredKeys: seq<string> := ["RIGHT", "DOWN", "LEFT", "UP"]

  datatype Settings = Settings(
    mazeWidth: int,
    mazeHeight: int,
    decayFactor: real,
    baseProbFactor: real,
    minRoomProb: real,
    algorithm: Algorithm,
    directionWeights: Weights,
    enableDebug: bool,
    enableStatistics: bool,
    roomClusteringFactor: real,
    corridorWidth: int,
    deadEndRemovalProbability: real,
    cellSize: int,
    wallThickness: int,
    exportFormat: string,
    imageDpi: int)

  const DefaultWeights: Weights := [("RIGHT", 0.25), ("DOWN", 0.25), ("LEFT", 0.25), ("UP", 0.25)]

  /** The field defaults of the dataclass. */
  const Defaults: Settings := Settings(20, 20, 0.25, 0.25, 0.05, Probabilistic, DefaultWeights,
    false, true, 0.1, 1, 0.0, 20, 2, "both", 300)

  /** Every condition validate_config checks, stated independently of the order
      in which it checks them. Dimensions above 1000 only log a warning. */
  predicate IsValid(s: Settings) {
    && s.mazeWidth >= 3 && s.mazeHeight >= 3
    && InUnit(s.decayFactor) && InUnit(s.baseProbFactor) && InUnit(s.minRoomProb)
    && |s.directionWeights| > 0
    && (forall k :: 0 <= k < |RequiredKeys| ==> HasKey(s.directionWeights, RequiredKeys[k]))
    && (forall i :: 0 <= i < |s.directionWeights| ==> InUnit(s.directionWeights[i].1))
    && InUnit(s.roomClusteringFactor)
    && s.corridorWidth >= 1
    && InUnit(s.deadEndRemovalProbability)
  }

  /** The first entry (in dictionary order) whose weight is outside [0, 1]. */
  function CheckWeights(w: Weights): (r: Outcome)
    ensures r.Pass? <==> forall i :: 0 <= i < |w| ==> InUnit(w[i].1)
    ensures r.Fail? ==>
      exists i :: (0 <= i < |w| && !InUnit(w[i].1)
        && r.message == "Weight for " + w[i].0 + " must be between 0.0 and 1.0"
        && forall j :: 0 <= j < i ==> InUnit(w[j].1))
  {
    if w == [] then Pass
    else if !InUnit(w[0].1) then Fail("Weight for " + w[0].0 + " must be between 0.0 and 1.0")
    else
      var r := CheckWeights(w[1..]);
      assert forall i :: 0 <= i < |w[1..]| ==> w[1..][i] == w[i + 1];
      r
  }

  /** validate_config: passes exactly on valid settings, otherwise fails with the
      message of the first check in source order that does not hold. */
  function ValidateConfig(s: Settings): (r: Outcome)
    ensures r.Pass? <==> IsValid(s)
    ensures s.mazeWidth < 3 ==> r == Fail("maze_width must be at least 3")
    ensures s.mazeWidth >= 3 && s.mazeHeight < 3 ==> r == Fail("maze_height must be at least 3")
  {
    if s.mazeWidth < 3 then Fail("maze_width must be at least 3")
    else if s.mazeHeight < 3 then Fail("maze_height must be at least 3")
    else if !InUnit(s.decayFactor) then Fail("decay_factor must be between 0.0 and 1.0")
    else if !InUnit(s.baseProbFactor) then Fail("base_prob_factor must be between 0.0 and 1.0")
    else if !InUnit(s.minRoomProb) then Fail("min_room_prob must be between 0.0 and 1.0")
    else if |s.directionWeights| == 0 then Fail("direction_weights cannot be empty")
    else if !(forall k :: 0 <= k < |RequiredKeys| ==> HasKey(s.directionWeights, RequiredKeys[k])) then
      Fail("direction_weights must contain all directions")
    else if CheckWeights(s.directionWeights).Fail? then CheckWeights(s.directionWeights)
    else if !InUnit(s.roomClusteringFactor) then Fail("room_clustering_factor must be between 0.0 and 1.0")
    else if s.corridorWidth < 1 then Fail("corridor_width must be at least 1")
    else if !InUnit(s.deadEndRemovalProbability) then
      Fail("dead_end_removal_probability must be between 0.0 and 1.0")
    else Pass
  }

  /** The logged warning of validate_config: it never makes validation fail. */
  function LargeDimensionsWarning(s: Settings): (warn: bool)
    ensures warn <==> s.mazeWidth > 1000 || s.mazeHeight > 1000
    ensures warn && IsValid(s) ==> ValidateConfig(s) == Pass
  {
    s.mazeWidth > 1000 || s.mazeHeight > 1000
  }

  /** Every weight replaced by c. */
  function Constant(w: Weights, c: real): (r: Weights)
    ensures |r| == |w|
    ensures forall i :: 0 <= i < |w| ==> r[i] == (w[i].0, c)
  {
    if w == [] then [] else [(w[0].0, c)] + Constant(w[1..], c)
  }

  /** Every weight divided by c. */
  function Scaled(w: Weights, c: real): (r: Weights)
    requires c != 0.0
    ensures |r| == |w|
    ensures forall i :: 0 <= i < |w| ==> r[i] == (w[i].0, w[i].1 / c)
  {
    if w == [] then [] else [(w[0].0, w[0].1 / c)] + Scaled(w[1..], c)
  }

  /** abs(total - 1.0) > 1e-6 */
  predicate Far(total: real) {
    total - 1.0 > 0.000001 || 1.0 - total > 0.000001
  }

  /** The weights normalize_direction_weights leaves behind. */
  function NormalizedWeights(w: Weights): (r: Weights)
    ensures Keys(r) == Keys(w)
  {
    var total := Sum(w);
    if total == 0.0 then Constant(w, 0.25)
    else if Far(total) then Scaled(w, total)
    else w
  }

  lemma {:induction false} SumScaled(w: Weights, c: real)
    requires c != 0.0
    ensures Sum(Scaled(w, c)) == Sum(w) / c
  {
    if w != [] {
      SumScaled(w[1..], c);
      assert Scaled(w, c)[1..] == Scaled(w[1..], c);
      assert w[0].1 / c + Sum(w[1..]) / c == (w[0].1 + Sum(w[1..])) / c;
    }
  }

  lemma {:induction false} SumConstant(w: Weights, c: real)
    ensures Sum(Constant(w, c)) == (|w| as real) * c
  {
    if w != [] {
      SumConstant(w[1..], c);
      assert Constant(w, c)[1..] == Constant(w[1..], c);
    }
  }

  /** After rescaling, the weights sum to exactly one over the reals. */
  lemma NormalizedSumsToOne(w: Weights)
    requires Sum(w) != 0.0 && Far(Sum(w))
    ensures Sum(NormalizedWeights(w)) == 1.0
  {
    SumScaled(w, Sum(w));
  }

  /** With a zero total every weight becomes 0.25, so the sum is a quarter of the
      number of keys: one for the four directions. */
  lemma NormalizedZeroSum(w: Weights)
    requires Sum(w) == 0.0
    ensures forall i :: 0 <= i < |w| ==> NormalizedWeights(w)[i].1 == 0.25
    ensures Sum(NormalizedWeights(w)) == (|w| as real) * 0.25
  {
    assert NormalizedWeights(w) == Constant(w, 0.25);
    SumConstant(w, 0.25);
  }

  lemma {:induction false} SumNonNegative(w: Weights)
    requires forall i :: 0 <= i < |w| ==> w[i].1 >= 0.0
    ensures Sum(w) >= 0.0
  {
    if w != [] {
      assert forall i :: 0 <= i < |w[1..]| ==> w[1..][i] == w[i + 1];
      SumNonNegative(w[1..]);
    }
  }

  lemma {:induction false} SumAtLeastEach(w: Weights, k: int)
    requires forall i :: 0 <= i < |w| ==> w[i].1 >= 0.0
    requires 0 <= k < |w|
    ensures w[k].1 <= Sum(w)
  {
    assert forall i :: 0 <= i < |w[1..]| ==> w[1..][i] == w[i + 1];
    if k == 0 {
      SumNonNegative(w[1..]);
    } else {
      SumAtLeastEach(w[1..], k - 1);
    }
  }

  lemma DivideAtMostOne(x: real, t: real)
    requires 0.0 <= x <= t && t > 0.0
    ensures 0.0 <= x / t <= 1.0
  {
    assert x / t * t == x;
  }

  /** Normalizing valid weights gives valid weights: each stays within [0, 1]. */
  lemma NormalizePreservesValidity(s: Settings)
    requires IsValid(s)
    ensures IsValid(s.(directionWeights := NormalizedWeights(s.directionWeights)))
  {
    var w := s.directionWeights;
    var r := NormalizedWeights(w);
    assert Keys(r) == Keys(w);
    forall k | 0 <= k < |RequiredKeys| ensures HasKey(r, RequiredKeys[k]) {
      var i :| 0 <= i < |w| && w[i].0 == RequiredKeys[k];
      assert Keys(w)[i] == Keys(r)[i];
    }
    var total := Sum(w);
    if total != 0.0 && Far(total) {
      SumNonNegative(w);
      forall i | 0 <= i < |w| ensures InUnit(r[i].1) {
        SumAtLeastEach(w, i);
        DivideAtMostOne(w[i].1, total);
      }
    }
  }

  /** Normalizing twice is normalizing once unless the total was zero and the map
      holds other than four keys. */
  lemma NormalizeIdempotent(w: Weights)
    requires Sum(w) != 0.0 || |w| == 4 || |w| == 0
    ensures NormalizedWeights(NormalizedWeights(w)) == NormalizedWeights(w)
  {
    var total := Sum(w);
    if total == 0.0 {
      NormalizedZeroSum(w);
    } else if Far(total) {
      NormalizedSumsToOne(w);
    }
  }

  /** Five zero weights become 0.25 each, summing to 1.25, which a second
      normalization rescales to 0.2. */
  lemma NormalizeNotIdempotentWithExtraKey()
    ensures var w: Weights := [("RIGHT", 0.0), ("DOWN", 0.0), ("LEFT", 0.0), ("UP", 0.0), ("X", 0.0)];
            NormalizedWeights(NormalizedWeights(w)) != NormalizedWeights(w)
  {
    var w: Weights := [("RIGHT", 0.0), ("DOWN", 0.0), ("LEFT", 0.0), ("UP", 0.0), ("X", 0.0)];
    NormalizedZeroSum(w);
    var n := NormalizedWeights(w);
    assert Sum(n) == 1.25;
    assert NormalizedWeights(n)[0].1 == 0.25 / 1.25;
  }

  /** is_valid_position. */
  function IsValidPosition(s: Settings, x: int, y: int): (r: bool)
    ensures r <==> s.mazeHeight >= 0 && s.mazeWidth >= 0 && (x, y) in AllCells(s.mazeHeight, s.mazeWidth)
  {
    0 <= x < s.mazeHeight && 0 <= y < s.mazeWidth
  }

  /** The in-bounds test as a predicate on positions. */
  function Inside(s: Settings): Pos -> bool {
    (q: Pos) => IsValidPosition(s, q.0, q.1)
  }

  /** The one-element list [q] when q is in bounds, otherwise the empty list. */
  function IfValid(s: Settings, q: Pos): seq<Pos> {
    if IsValidPosition(s, q.0, q.1) then [q] else []
  }

  /** get_neighbors: the in-bounds 4-neighbours in the order up, down, left, right. */
  function GetNeighbors(s: Settings, x: int, y: int): (r: seq<Pos>)
    ensures Distinct(r)
    ensures forall q :: q in r <==> IsValidPosition(s, q.0, q.1) && Adjacent((x, y), q)
    ensures r == IfValid(s, (x - 1, y)) + (IfValid(s, (x + 1, y)) + (IfValid(s, (x, y - 1)) + IfValid(s, (x, y + 1))))
  {
    var r := StepsWhere((x, y), AllDirections, Inside(s));
    StepsWhereAll((x, y), AllDirections, Inside(s));
    StepsWhereDistinct((x, y), AllDirections, Inside(s));
    forall q: Pos | IsValidPosition(s, q.0, q.1) && Adjacent((x, y), q) ensures q in r {
      var d := AdjacentIsStep((x, y), q);
      StepsWhereComplete((x, y), AllDirections, Inside(s), d);
    }
    r
  }

  function Indicator(b: bool): nat {
    if b then 1 else 0
  }

  /** Two neighbours in a corner, three on an edge, four inside (grids at least 3 wide). */
  lemma NeighborCount(s: Settings, x: int, y: int)
    requires s.mazeHeight >= 3 && s.mazeWidth >= 3 && IsValidPosition(s, x, y)
    ensures |GetNeighbors(s, x, y)| ==
      4 - Indicator(x == 0) - Indicator(x == s.mazeHeight - 1) - Indicator(y == 0) - Indicator(y == s.mazeWidth - 1)
  {
    var keep, p := Inside(s), (x, y);
    assert [Right][1..] == [];
    var r4 := StepsWhere(p, [Right], keep);
    assert |r4| == Indicator(y != s.mazeWidth - 1);
    assert [Left, Right][1..] == [Right];
    var r3 := StepsWhere(p, [Left, Right], keep);
    assert |r3| == Indicator(y != 0) + |r4|;
    assert [Down, Left, Right][1..] == [Left, Right];
    var r2 := StepsWhere(p, [Down, Left, Right], keep);
    assert |r2| == Indicator(x != s.mazeHeight - 1) + |r3|;
    assert AllDirections[1..] == [Down, Left, Right];
    assert |StepsWhere(p, AllDirections, keep)| == Indicator(x != 0) + |r2|;
  }

  /** The fields of the dataclass, in declaration order. */
  datatype Field =
    | MazeWidth | MazeHeight | DecayFactor | BaseProbFactor | MinRoomProb | AlgorithmField
    | DirectionWeights | EnableDebug | EnableStatistics | RoomClusteringFactor | CorridorWidth
    | DeadEndRemovalProbability | CellSize | WallThickness | ExportFormat | ImageDpi
  {
    function Name(): string {
      match this
      case MazeWidth => "maze_width"
      case MazeHeight => "maze_height"
      case DecayFactor => "decay_factor"
      case BaseProbFactor => "base_prob_factor"
      case MinRoomProb => "min_room_prob"
      case AlgorithmField => "algorithm"
      case DirectionWeights => "direction_weights"
      case EnableDebug => "enable_debug"
      case EnableStatistics => "enable_statistics"
      case RoomClusteringFactor => "room_clustering_factor"
      case CorridorWidth => "corridor_width"
      case DeadEndRemovalProbability => "dead_end_removal_probability"
      case CellSize => "cell_size"
      case WallThickness => "wall_thickness"
      case ExportFormat => "export_format"
      case ImageDpi => "image_dpi"
    }
  }

  const AllFields: seq<Field> := [MazeWidth, MazeHeight, DecayFactor, BaseProbFactor, MinRoomProb,
    AlgorithmField, DirectionWeights, EnableDebug, EnableStatistics, RoomClusteringFactor,
    CorridorWidth, DeadEndRemovalProbability, CellSize, WallThickness, ExportFormat, ImageDpi]

  lemma AllFieldsListed(f: Field)
    ensures f in AllFields
  {
    match f {
      case MazeWidth => case MazeHeight => case DecayFactor => case BaseProbFactor =>
      case MinRoomProb => case AlgorithmField => case DirectionWeights => case EnableDebug =>
      case EnableStatistics => case RoomClusteringFactor => case CorridorWidth =>
      case DeadEndRemovalProbability => case CellSize => case WallThickness =>
      case ExportFormat => case ImageDpi =>
    }
  }

  /** A dictionary key: the name of a field, or any other string. */
  datatype Key = Known(field: Field) | Unknown(name: string)

  /** A field value as it appears in the dictionary form. */
  datatype FieldValue =
    | IntV(i: int)
    | RealV(r: real)
    | BoolV(b: bool)
    | StrV(s: string)
    | WeightsV(w: Weights)
    | AlgorithmV(a: Algorithm)

  /** A value of the type the field is declared with (an int is accepted for a float field). */
  predicate Fits(f: Field, v: FieldValue) {
    match f
    case MazeWidth | MazeHeight | CorridorWidth | CellSize | WallThickness | ImageDpi => v.IntV?
    case DecayFactor | BaseProbFactor | MinRoomProb | RoomClusteringFactor | DeadEndRemovalProbability =>
      v.RealV? || v.IntV?
    case EnableDebug | EnableStatistics => v.BoolV?
    case AlgorithmField => v.AlgorithmV?
    case DirectionWeights => v.WeightsV? && UniqueKeys(v.w)
    case ExportFormat => v.StrV?
  }

  predicate IsRealField(f: Field) {
    f in {DecayFactor, BaseProbFactor, MinRoomProb, RoomClusteringFactor, DeadEndRemovalProbability}
  }

  /** The value Python keeps for field f: an int given for a float field compares
      as that number, so the model stores it as a real. */
  function Stored(f: Field, v: FieldValue): FieldValue
    requires Fits(f, v)
  {
    if IsRealField(f) then RealV(RealOf(v)) else v
  }

  function RealOf(v: FieldValue): real
    requires v.RealV? || v.IntV?
  {
    if v.RealV? then v.r else v.i as real
  }

  /** The value of field f. */
  function GetField(s: Settings, f: Field): (v: FieldValue)
    ensures Fits(f, v) || (f == DirectionWeights && !UniqueKeys(s.directionWeights))
  {
    match f
    case MazeWidth => IntV(s.mazeWidth)
    case MazeHeight => IntV(s.mazeHeight)
    case DecayFactor => RealV(s.decayFactor)
    case BaseProbFactor => RealV(s.baseProbFactor)
    case MinRoomProb => RealV(s.minRoomProb)
    case AlgorithmField => AlgorithmV(s.algorithm)
    case DirectionWeights => WeightsV(s.directionWeights)
    case EnableDebug => BoolV(s.enableDebug)
    case EnableStatistics => BoolV(s.enableStatistics)
    case RoomClusteringFactor => RealV(s.roomClusteringFactor)
    case CorridorWidth => IntV(s.corridorWidth)
    case DeadEndRemovalProbability => RealV(s.deadEndRemovalProbability)
    case CellSize => IntV(s.cellSize)
    case WallThickness => IntV(s.wallThickness)
    case ExportFormat => StrV(s.exportFormat)
    case ImageDpi => IntV(s.imageDpi)
  }

  /** setattr(config, f.name, v): field f reads back as v (an int given for a
      float field as that number), and every other field keeps its value. */
  function SetField(s: Settings, f: Field, v: FieldValue): (r: Settings)
    requires Fits(f, v)
    ensures GetField(r, f) == Stored(f, v)
    ensures forall g :: g != f ==> GetField(r, g) == GetField(s, g)
  {
    match f
    case MazeWidth => s.(mazeWidth := v.i)
    case MazeHeight => s.(mazeHeight := v.i)
    case DecayFactor => s.(decayFactor := RealOf(v))
    case BaseProbFactor => s.(baseProbFactor := RealOf(v))
    case MinRoomProb => s.(minRoomProb := RealOf(v))
    case AlgorithmField => s.(algorithm := v.a)
    case DirectionWeights => s.(directionWeights := v.w)
    case EnableDebug => s.(enableDebug := v.b)
    case EnableStatistics => s.(enableStatistics := v.b)
    case RoomClusteringFactor => s.(roomClusteringFactor := RealOf(v))
    case CorridorWidth => s.(corridorWidth := v.i)
    case DeadEndRemovalProbability => s.(deadEndRemovalProbability := RealOf(v))
    case CellSize => s.(cellSize := v.i)
    case WallThickness => s.(wallThickness := v.i)
    case ExportFormat => s.(exportFormat := v.s)
    case ImageDpi => s.(imageDpi := v.i)
  }

  /** The keyword argument given for field f, or the default dflt; one accessor
      per declared type. */
  function IntArg(d: map<Key, FieldValue>, f: Field, dflt: int): int {
    if Known(f) in d && d[Known(f)].IntV? then d[Known(f)].i else dflt
  }

  function RealArg(d: map<Key, FieldValue>, f: Field, dflt: real): real {
    if Known(f) in d && (d[Known(f)].RealV? || d[Known(f)].IntV?) then RealOf(d[Known(f)]) else dflt
  }

  function BoolArg(d: map<Key, FieldValue>, f: Field, dflt: bool): bool {
    if Known(f) in d && d[Known(f)].BoolV? then d[Known(f)].b else dflt
  }

  function StrArg(d: map<Key, FieldValue>, f: Field, dflt: string): string {
    if Known(f) in d && d[Known(f)].StrV? then d[Known(f)].s else dflt
  }

  function WeightsArg(d: map<Key, FieldValue>, f: Field, dflt: Weights): Weights {
    if Known(f) in d && d[Known(f)].WeightsV? then d[Known(f)].w else dflt
  }

  function AlgorithmArg(d: map<Key, FieldValue>, f: Field, dflt: Algorithm): Algorithm {
    if Known(f) in d && d[Known(f)].AlgorithmV? then d[Known(f)].a else dflt
  }

  /** Every keyword names a field and carries a value of its type. */
  predicate KeywordsFit(d: map<Key, FieldValue>) {
    forall k :: k in d ==> k.Known? && Fits(k.field, d[k])
  }

  /** MazeConfig(**d) before __post_init__: an unknown keyword is a TypeError, a
      missing one takes its default. */
  function FromKeywords(d: map<Key, FieldValue>): (r: Result<Settings>)
    ensures r.Ok? <==> KeywordsFit(d)
  {
    if !KeywordsFit(d) then
      Err(if exists k :: k in d && k.Unknown? then "unexpected keyword argument" else "unsupported field value")
    else
      var D := Defaults;
      Ok(Settings(
        IntArg(d, MazeWidth, D.mazeWidth), IntArg(d, MazeHeight, D.mazeHeight),
        RealArg(d, DecayFactor, D.decayFactor), RealArg(d, BaseProbFactor, D.baseProbFactor),
        RealArg(d, MinRoomProb, D.minRoomProb), AlgorithmArg(d, AlgorithmField, D.algorithm),
        WeightsArg(d, DirectionWeights, D.directionWeights), BoolArg(d, EnableDebug, D.enableDebug),
        BoolArg(d, EnableStatistics, D.enableStatistics),
        RealArg(d, RoomClusteringFactor, D.roomClusteringFactor),
        IntArg(d, CorridorWidth, D.corridorWidth),
        RealArg(d, DeadEndRemovalProbability, D.deadEndRemovalProbability),
        IntArg(d, CellSize, D.cellSize), IntArg(d, WallThickness, D.wallThickness),
        StrArg(d, ExportFormat, D.exportFormat), IntArg(d, ImageDpi, D.imageDpi)))
  }

  /** A field the keywords give reads back as given; any other has its default. */
  lemma FromKeywordsFields(d: map<Key, FieldValue>, f: Field)
    requires KeywordsFit(d)
    ensures Known(f) in d ==> GetField(FromKeywords(d).value, f) == Stored(f, d[Known(f)])
    ensures Known(f) !in d ==> GetField(FromKeywords(d).value, f) == GetField(Defaults, f)
  {
  }

  const KnownKeys: set<Key> := set f | f in AllFields :: Known(f)

  /** Every field under its own key. */
  function FieldMap(s: Settings): (d: map<Key, FieldValue>)
    ensures forall k :: k in d ==> k.Known?
  {
    map[Known(MazeWidth) := IntV(s.mazeWidth), Known(MazeHeight) := IntV(s.mazeHeight),
        Known(DecayFactor) := RealV(s.decayFactor), Known(BaseProbFactor) := RealV(s.baseProbFactor),
        Known(MinRoomProb) := RealV(s.minRoomProb), Known(AlgorithmField) := AlgorithmV(s.algorithm),
        Known(DirectionWeights) := WeightsV(s.directionWeights), Known(EnableDebug) := BoolV(s.enableDebug),
        Known(EnableStatistics) := BoolV(s.enableStatistics),
        Known(RoomClusteringFactor) := RealV(s.roomClusteringFactor),
        Known(CorridorWidth) := IntV(s.corridorWidth),
        Known(DeadEndRemovalProbability) := RealV(s.deadEndRemovalProbability),
        Known(CellSize) := IntV(s.cellSize), Known(WallThickness) := IntV(s.wallThickness),
        Known(ExportFormat) := StrV(s.exportFormat), Known(ImageDpi) := IntV(s.imageDpi)]
  }

  lemma FieldMapLookup(s: Settings, f: Field)
    ensures Known(f) in FieldMap(s) && FieldMap(s)[Known(f)] == GetField(s, f)
  {
    match f {
      case MazeWidth => case MazeHeight => case DecayFactor => case BaseProbFactor =>
      case MinRoomProb => case AlgorithmField => case DirectionWeights => case EnableDebug =>
      case EnableStatistics => case RoomClusteringFactor => case CorridorWidth =>
      case DeadEndRemovalProbability => case CellSize => case WallThickness =>
      case ExportFormat => case ImageDpi =>
    }
  }

  lemma ToDictKeys(s: Settings)
    ensures forall k :: k in FieldMap(s) <==> k.Known?
  {
    forall k: Key | k.Known? ensures k in FieldMap(s) {
      FieldMapLookup(s, k.field);
    }
  }

  /** to_dict: every field under its name, the algorithm as its string value. */
  function ToDict(s: Settings): (d: map<Key, FieldValue>)
    ensures forall k :: k in d <==> k.Known?
    ensures d[Known(AlgorithmField)] == StrV(s.algorithm.Value())
  {
    ToDictKeys(s);
    FieldMap(s)[Known(AlgorithmField) := StrV(s.algorithm.Value())]
  }

  /** Constructing from a dictionary holding every field's own value, and
      nothing else, rebuilds the settings. */
  lemma FromFieldMap(s: Settings, d: map<Key, FieldValue>)
    requires UniqueKeys(s.directionWeights)
    requires forall f :: Known(f) in d && d[Known(f)] == GetField(s, f)
    requires forall k :: k in d ==> k.Known?
    ensures FromKeywords(d) == Ok(s)
  {
    assert KeywordsFit(d) by {
      forall k | k in d ensures k.Known? && Fits(k.field, d[k]) {
        assert d[Known(k.field)] == GetField(s, k.field);
      }
    }
    assert d[Known(MazeWidth)] == IntV(s.mazeWidth) && d[Known(MazeHeight)] == IntV(s.mazeHeight);
    assert d[Known(DecayFactor)] == RealV(s.decayFactor) && d[Known(BaseProbFactor)] == RealV(s.baseProbFactor);
    assert d[Known(MinRoomProb)] == RealV(s.minRoomProb) && d[Known(AlgorithmField)] == AlgorithmV(s.algorithm);
    assert d[Known(DirectionWeights)] == WeightsV(s.directionWeights);
    assert d[Known(EnableDebug)] == BoolV(s.enableDebug) && d[Known(EnableStatistics)] == BoolV(s.enableStatistics);
    assert d[Known(RoomClusteringFactor)] == RealV(s.roomClusteringFactor);
    assert d[Known(CorridorWidth)] == IntV(s.corridorWidth);
    assert d[Known(DeadEndRemovalProbability)] == RealV(s.deadEndRemovalProbability);
    assert d[Known(CellSize)] == IntV(s.cellSize) && d[Known(WallThickness)] == IntV(s.wallThickness);
    assert d[Known(ExportFormat)] == StrV(s.exportFormat) && d[Known(ImageDpi)] == IntV(s.imageDpi);
  }

  /** Reading the dictionary form back gives the same settings. */
  lemma ToDictRoundTrip(s: Settings)
    requires UniqueKeys(s.directionWeights)
    ensures SettingsFromDict(ToDict(s)) == Ok(s)
  {
    var d := ToDict(s);
    assert AlgorithmFromValue(s.algorithm.Value()) == Ok(s.algorithm);
    var d1 := d[Known(AlgorithmField) := AlgorithmV(s.algorithm)];
    forall f ensures Known(f) in d1 && d1[Known(f)] == GetField(s, f) {
      FieldMapLookup(s, f);
    }
    FromFieldMap(s, d1);
  }

  /** from_dict without construction: a string under "algorithm" is converted to
      the enum member first (an unknown value is the ValueError), then the keywords
      are applied. */
  function SettingsFromDict(d: map<Key, FieldValue>): (r: Result<Settings>)
    ensures (Known(AlgorithmField) in d && d[Known(AlgorithmField)].StrV?
             && AlgorithmFromValue(d[Known(AlgorithmField)].s).Err?) ==> r.Err?
    ensures (exists k :: k in d && k.Unknown?) ==> r.Err?
  {
    var d1 :- if Known(AlgorithmField) in d && d[Known(AlgorithmField)].StrV? then
                (var a :- AlgorithmFromValue(d[Known(AlgorithmField)].s);
                 Ok(d[Known(AlgorithmField) := AlgorithmV(a)]))
              else Ok(d);
    assert forall k :: k in d ==> k in d1;
    FromKeywords(d1)
  }

  /** The presets of get_preset. */
  datatype Preset = Tiny | Small | Medium | Large | Sparse | Dense | Linear | Vertical | Horizontal {
    function Name(): string {
      match this
      case Tiny => "tiny"
      case Small => "small"
      case Medium => "medium"
      case Large => "large"
      case Sparse => "sparse"
      case Dense => "dense"
      case Linear => "linear"
      case Vertical => "vertical"
      case Horizontal => "horizontal"
    }

    /** The keyword arguments the preset is constructed from. */
    function Args(): Settings {
      match this
      case Tiny => Defaults.(mazeWidth := 5, mazeHeight := 5, decayFactor := 0.3, baseProbFactor := 0.3)
      case Small => Defaults.(mazeWidth := 10, mazeHeight := 10, decayFactor := 0.25, baseProbFactor := 0.25)
      case Medium => Defaults.(mazeWidth := 20, mazeHeight := 20, decayFactor := 0.2, baseProbFactor := 0.2)
      case Large => Defaults.(mazeWidth := 40, mazeHeight := 40, decayFactor := 0.15, baseProbFactor := 0.15)
      case Sparse =>
        Defaults.(mazeWidth := 20, mazeHeight := 20, decayFactor := 0.1, baseProbFactor := 0.1, minRoomProb := 0.02)
      case Dense =>
        Defaults.(mazeWidth := 20, mazeHeight := 20, decayFactor := 0.4, baseProbFactor := 0.4, minRoomProb := 0.1)
      case Linear => Defaults.(directionWeights := [("RIGHT", 0.4), ("DOWN", 0.4), ("LEFT", 0.1), ("UP", 0.1)])
      case Vertical => Defaults.(directionWeights := [("RIGHT", 0.2), ("DOWN", 0.4), ("LEFT", 0.2), ("UP", 0.2)])
      case Horizontal => Defaults.(directionWeights := [("RIGHT", 0.4), ("DOWN", 0.2), ("LEFT", 0.2), ("UP", 0.2)])
    }
  }

  const PresetNames: set<string> := {"tiny", "small", "medium", "large", "sparse", "dense", "linear",
    "vertical", "horizontal"}

  /** The preset a lower-cased name selects. */
  function PresetNamed(key: string): (r: Option<Preset>)
    ensures r.Some? ==> r.value.Name() == key
    ensures r.None? <==> key !in PresetNames
  {
    if key == "tiny" then Some(Tiny) else if key == "small" then Some(Small)
    else if key == "medium" then Some(Medium) else if key == "large" then Some(Large)
    else if key == "sparse" then Some(Sparse) else if key == "dense" then Some(Dense)
    else if key == "linear" then Some(Linear) else if key == "vertical" then Some(Vertical)
    else if key == "horizontal" then Some(Horizontal) else None
  }

  lemma FourWeights(w: Weights, a: real, b: real, c: real, e: real)
    requires w == [("RIGHT", a), ("DOWN", b), ("LEFT", c), ("UP", e)]
    requires InUnit(a) && InUnit(b) && InUnit(c) && InUnit(e) && a + b + c + e == 1.0
    ensures forall k :: 0 <= k < |RequiredKeys| ==> HasKey(w, RequiredKeys[k])
    ensures forall i :: 0 <= i < |w| ==> InUnit(w[i].1)
    ensures UniqueKeys(w) && NormalizedWeights(w) == w
  {
    assert w[0].0 == "RIGHT" && w[1].0 == "DOWN" && w[2].0 == "LEFT" && w[3].0 == "UP";
    assert w[1..] == [("DOWN", b), ("LEFT", c), ("UP", e)];
    assert w[1..][1..] == [("LEFT", c), ("UP", e)];
    assert w[1..][1..][1..] == [("UP", e)];
    assert w[1..][1..][1..][1..] == [];
    assert Sum(w[1..][1..][1..]) == e;
    assert Sum(w[1..][1..]) == c + e;
    assert Sum(w[1..]) == b + c + e;
    assert Sum(w) == a + b + c + e;
  }

  /** Each preset is valid and already normalized, so constructing it keeps its arguments. */
  lemma PresetValid(p: Preset)
    ensures IsValid(p.Args()) && UniqueKeys(p.Args().directionWeights)
    ensures Normalized(p.Args()) == p.Args()
  {
    var w := p.Args().directionWeights;
    match p
    case Linear => FourWeights(w, 0.4, 0.4, 0.1, 0.1);
    case Vertical => FourWeights(w, 0.2, 0.4, 0.2, 0.2);
    case Horizontal => FourWeights(w, 0.4, 0.2, 0.2, 0.2);
    case _ => FourWeights(w, 0.25, 0.25, 0.25, 0.25);
  }

  /** get_preset on settings: the name is matched after lower-casing; an unknown
      one is the ValueError. */
  function PresetSettings(name: string): (r: Result<Settings>)
    ensures r.Ok? <==> Text.Lower(name) in PresetNames
    ensures r.Ok? ==> IsValid(r.value) && Normalized(r.value) == r.value
    ensures r.Ok? ==> exists p: Preset :: p.Name() == Text.Lower(name) && r.value == p.Args()
  {
    match PresetNamed(Text.Lower(name))
    case Some(p) => PresetValid(p); Ok(p.Args())
    case None => Err("Unknown preset '" + name + "'")
  }

  function Normalized(s: Settings): Settings {
    s.(directionWeights := NormalizedWeights(s.directionWeights))
  }

  /** The settings after assigning each known key in order. */
  function Applied(s: Settings, mods: seq<(Key, FieldValue)>): Settings
    requires forall i :: 0 <= i < |mods| && mods[i].0.Known? ==> Fits(mods[i].0.field, mods[i].1)
    decreases |mods|
  {
    if mods == [] then s
    else
      var s1 := if mods[0].0.Known? then SetField(s, mods[0].0.field, mods[0].1) else s;
      Applied(s1, mods[1..])
  }

  lemma {:induction false} AppliedSnoc(s: Settings, mods: seq<(Key, FieldValue)>, m: (Key, FieldValue))
    requires forall i :: 0 <= i < |mods| && mods[i].0.Known? ==> Fits(mods[i].0.field, mods[i].1)
    requires m.0.Known? ==> Fits(m.0.field, m.1)
    ensures Applied(s, mods + [m]) ==
      (var a := Applied(s, mods); if m.0.Known? then SetField(a, m.0.field, m.1) else a)
    decreases |mods|
  {
    if mods != [] {
      assert (mods + [m])[1..] == mods[1..] + [m];
      var s1 := if mods[0].0.Known? then SetField(s, mods[0].0.field, mods[0].1) else s;
      AppliedSnoc(s1, mods[1..], m);
    }
  }

  /** An unknown key anywhere in the modifications has no effect. */
  lemma {:induction false} UnknownKeysIgnored(s: Settings, pre: seq<(Key, FieldValue)>, name: string, v: FieldValue,
                                              post: seq<(Key, FieldValue)>)
    requires forall i :: 0 <= i < |pre| && pre[i].0.Known? ==> Fits(pre[i].0.field, pre[i].1)
    requires forall i :: 0 <= i < |post| && post[i].0.Known? ==> Fits(post[i].0.field, post[i].1)
    ensures Applied(s, pre + [(Unknown(name), v)] + post) == Applied(s, pre + post)
    decreases |pre|
  {
    if pre == [] {
      assert ([] + [(Unknown(name), v)] + post)[1..] == post;
      assert pre + post == post;
    } else {
      var s1 := if pre[0].0.Known? then SetField(s, pre[0].0.field, pre[0].1) else s;
      UnknownKeysIgnored(s1, pre[1..], name, v, post);
      assert (pre + [(Unknown(name), v)] + post)[1..] == pre[1..] + [(Unknown(name), v)] + post;
      assert (pre + post)[1..] == pre[1..] + post;
    }
  }

  /** The configuration object: a dataclass whose fields the normalization and
      the preset modifications overwrite. */
  class Config {
    var mazeWidth: int
    var mazeHeight: int
    var decayFactor: real
    var baseProbFactor: real
    var minRoomProb: real
    var algorithm: Algorithm
    var directionWeights: Weights
    var enableDebug: bool
    var enableStatistics: bool
    var roomClusteringFactor: real
    var corridorWidth: int
    var deadEndRemovalProbability: real
    var cellSize: int
    var wallThickness: int
    var exportFormat: string
    var imageDpi: int

    /** The field values as a record. */
    function Snapshot(): Settings
      reads this
    {
      Settings(mazeWidth, mazeHeight, decayFactor, baseProbFactor, minRoomProb, algorithm,
        directionWeights, enableDebug, enableStatistics, roomClusteringFactor, corridorWidth,
        deadEndRemovalProbability, cellSize, wallThickness, exportFormat, imageDpi)
    }

    /** The generated field-by-field initializer, before __post_init__. */
    constructor Init(s: Settings)
      ensures Snapshot() == s
    {
      mazeWidth, mazeHeight := s.mazeWidth, s.mazeHeight;
      decayFactor, baseProbFactor, minRoomProb := s.decayFactor, s.baseProbFactor, s.minRoomProb;
      algorithm, directionWeights := s.algorithm, s.directionWeights;
      enableDebug, enableStatistics := s.enableDebug, s.enableStatistics;
      roomClusteringFactor, corridorWidth := s.roomClusteringFactor, s.corridorWidth;
      deadEndRemovalProbability := s.deadEndRemovalProbability;
      cellSize, wallThickness := s.cellSize, s.wallThickness;
      exportFormat, imageDpi := s.exportFormat, s.imageDpi;
    }

    /** MazeConfig(...): the initializer, then validation (which may raise) and
        normalization. */
    static method Create(s: Settings) returns (r: Result<Config>)
      ensures r.Ok? <==> IsValid(s)
      ensures r.Err? ==> r.message == ValidateConfig(s).message
      ensures r.Ok? ==> fresh(r.value) && r.value.Snapshot() == Normalized(s) && IsValid(Normalized(s))
    {
      var check := ValidateConfig(s);
      if check.Fail? {
        return Err(check.message);
      }
      var c := new Config.Init(s);
      c.NormalizeDirectionWeights();
      NormalizePreservesValidity(s);
      return Ok(c);
    }

    /** normalize_direction_weights: rewrites each weight in place. */
    method NormalizeDirectionWeights()
      modifies this
      ensures Snapshot() == Normalized(old(Snapshot()))
    {
      var total := Sum(directionWeights);
      ghost var w0 := directionWeights;
      if total == 0.0 {
        for i := 0 to |directionWeights|
          invariant |directionWeights| == |w0|
          invariant forall k :: 0 <= k < i ==> directionWeights[k] == (w0[k].0, 0.25)
          invariant forall k :: i <= k < |w0| ==> directionWeights[k] == w0[k]
          invariant Snapshot() == old(Snapshot()).(directionWeights := directionWeights)
        {
          directionWeights := directionWeights[i := (directionWeights[i].0, 0.25)];
        }
        assert directionWeights == Constant(w0, 0.25);
      } else if Far(total) {
        for i := 0 to |directionWeights|
          invariant |directionWeights| == |w0|
          invariant forall k :: 0 <= k < i ==> directionWeights[k] == (w0[k].0, w0[k].1 / total)
          invariant forall k :: i <= k < |w0| ==> directionWeights[k] == w0[k]
          invariant Snapshot() == old(Snapshot()).(directionWeights := directionWeights)
        {
          directionWeights := directionWeights[i := (directionWeights[i].0, directionWeights[i].1 / total)];
        }
        assert directionWeights == Scaled(w0, total);
      }
    }

    /** setattr for a known field. */
    method SetAttr(f: Field, v: FieldValue)
      requires Fits(f, v)
      modifies this
      ensures Snapshot() == SetField(old(Snapshot()), f, v)
    {
      match f
      case MazeWidth => mazeWidth := v.i;
      case MazeHeight => mazeHeight := v.i;
      case DecayFactor => decayFactor := RealOf(v);
      case BaseProbFactor => baseProbFactor := RealOf(v);
      case MinRoomProb => minRoomProb := RealOf(v);
      case AlgorithmField => algorithm := v.a;
      case DirectionWeights => directionWeights := v.w;
      case EnableDebug => enableDebug := v.b;
      case EnableStatistics => enableStatistics := v.b;
      case RoomClusteringFactor => roomClusteringFactor := RealOf(v);
      case CorridorWidth => corridorWidth := v.i;
      case DeadEndRemovalProbability => deadEndRemovalProbability := RealOf(v);
      case CellSize => cellSize := v.i;
      case WallThickness => wallThickness := v.i;
      case ExportFormat => exportFormat := v.s;
      case ImageDpi => imageDpi := v.i;
    }

    /** copy: a new object with the same field values and its own weight map,
        constructed (so validated and normalized) again. */
    method Copy() returns (r: Result<Config>)
      ensures r.Ok? <==> IsValid(Snapshot())
      ensures r.Ok? ==> fresh(r.value) && r.value.Snapshot() == Normalized(Snapshot())
    {
      r := Create(Snapshot());
    }

    /** to_dict of this object. */
    function ToDictionary(): (d: map<Key, FieldValue>)
      requires UniqueKeys(directionWeights)
      reads this
      ensures SettingsFromDict(d) == Ok(Snapshot())
    {
      ToDictRoundTrip(Snapshot());
      ToDict(Snapshot())
    }

    /** from_dict: the dictionary read back and constructed. */
    static method FromDict(d: map<Key, FieldValue>) returns (r: Result<Config>)
      ensures r.Ok? <==> SettingsFromDict(d).Ok? && IsValid(SettingsFromDict(d).value)
      ensures r.Ok? ==> fresh(r.value) && r.value.Snapshot() == Normalized(SettingsFromDict(d).value)
    {
      var s := SettingsFromDict(d);
      if s.Err? {
        return Err(s.message);
      }
      r := Create(s.value);
    }

    /** get_preset: a freshly constructed configuration of the named preset. */
    static method GetPreset(name: string) returns (r: Result<Config>)
      ensures r.Ok? <==> Text.Lower(name) in PresetNames
      ensures r.Ok? ==> fresh(r.value) && r.value.Snapshot() == PresetSettings(name).value
    {
      var s := PresetSettings(name);
      if s.Err? {
        return Err(s.message);
      }
      r := Create(s.value);
    }

    /** apply_preset_modifications: known fields are assigned in order, unknown
        keys are skipped, then the result is validated (a failure leaves the
        assignments in place) and normalized. */
    method ApplyPresetModifications(mods: seq<(Key, FieldValue)>) returns (r: Outcome)
      requires forall i :: 0 <= i < |mods| && mods[i].0.Known? ==> Fits(mods[i].0.field, mods[i].1)
      modifies this
      ensures r == ValidateConfig(Applied(old(Snapshot()), mods))
      ensures r.Fail? ==> Snapshot() == Applied(old(Snapshot()), mods)
      ensures r.Pass? ==> Snapshot() == Normalized(Applied(old(Snapshot()), mods)) && IsValid(Snapshot())
    {
      ghost var s0 := Snapshot();
      for i := 0 to |mods|
        invariant Snapshot() == Applied(s0, mods[..i])
      {
        assert mods[..i + 1] == mods[..i] + [mods[i]];
        AppliedSnoc(s0, mods[..i], mods[i]);
        if mods[i].0.Known? {
          SetAttr(mods[i].0.field, mods[i].1);
        }
      }
      assert mods[..|mods|] == mods;
      r := ValidateConfig(Snapshot());
      if r.Fail? {
        return;
      }
      NormalizePreservesValidity(Snapshot());
      NormalizeDirectionWeights();
    }
  }

  /** A configuration that construction left unchanged comes back from its
      dictionary form with the same fields, and constructing it again is the
      identity. */
  lemma FromDictToDictRoundTrip(s: Settings)
    requires IsValid(s) && UniqueKeys(s.directionWeights) && Normalized(s) == s
    ensures SettingsFromDict(ToDict(s)) == Ok(s)
    ensures IsValid(SettingsFromDict(ToDict(s)).value)
    ensures Normalized(SettingsFromDict(ToDict(s)).value) == s
  {
    ToDictRoundTrip(s);
  }

  /** Construction normalizes to a fixed point unless the weights were all zero
      and the map has other than four keys. */
  lemma ConstructedIsNormalized(s: Settings)
    requires Sum(s.directionWeights) != 0.0 || |s.directionWeights| == 4
    ensures Normalized(Normalized(s)) == Normalized(s)
  {
    NormalizeIdempotent(s.directionWeights);
  }
}
