/** The generation form's parameter logic: the direction-weight auto-balancing
    (an edited weight that pushes the total above 1 takes the overflow from the
    opposite direction, never below 0.01), the even balance, the presets, the
    bounds checks before generation and the time estimate. The form's text
    variables hold numbers here; a variable's `set` runs its write callback. */
module GenerateMazeFrame {
  import opened Outcomes
  import MazeDp

  const DIRECTION_NAMES: seq<string> := ["RIGHT", "LEFT", "UP", "DOWN"]

  /** The least weight the auto-balancing leaves on an opposite direction. */
  const MIN_WEIGHT: real := 0.01

  /** DIRECTION_OPPOSITES; None is the KeyError of a name it does not hold. */
  function Opposite(d: string): (r: Option<string>)
    ensures r.Some? <==> d in DIRECTION_NAMES
    ensures r.Some? ==> r.value in DIRECTION_NAMES
  {
    if d == "RIGHT" then Some("LEFT")
    else if d == "LEFT" then Some("RIGHT")
    else if d == "UP" then Some("DOWN")
    else if d == "DOWN" then Some("UP")
    else None
  }

  /** The opposite of a direction is another direction whose opposite is the
      first. */
  lemma OppositeInvolution(d: string)
    requires d in DIRECTION_NAMES
    ensures Opposite(d).value != d
    ensures Opposite(Opposite(d).value) == Some(d)
  {
  }

  /** The weights of the four directions, one per name. */
  predicate HasAllWeights(w: map<string, real>) {
    forall d :: d in DIRECTION_NAMES ==> d in w
  }

  /** The sum the form computes over the four directions. */
  function WeightTotal(w: map<string, real>): real
    requires HasAllWeights(w)
  {
    w["RIGHT"] + w["LEFT"] + w["UP"] + w["DOWN"]
  }

  /** What _on_weight_change does to the weights when it is not suppressed: an
      unknown direction or a total of at most 1 leaves them; otherwise the
      opposite direction gives up the overflow, keeping at least MIN_WEIGHT. */
  function Rebalanced(w: map<string, real>, direction: string): (r: map<string, real>)
    requires HasAllWeights(w)
    ensures r.Keys == w.Keys && HasAllWeights(r)
    ensures Opposite(direction).None? || WeightTotal(w) <= 1.0 ==> r == w
    ensures forall d :: d in w && Some(d) != Opposite(direction) ==> r[d] == w[d]
    ensures Opposite(direction).Some? && WeightTotal(w) > 1.0 ==>
              r[Opposite(direction).value] >= MIN_WEIGHT
  {
    var opposite := Opposite(direction);
    if opposite.None? then w
    else
      var total := WeightTotal(w);
      if total <= 1.0 then w
      else
        var o := opposite.value;
        w[o := MazeDp.MaxR(MIN_WEIGHT, w[o] - (total - 1.0))]
  }

  /** After a rebalancing the total is back at 1, unless the floor of
      MIN_WEIGHT keeps it above: it is the larger of the two. */
  lemma RebalancedTotal(w: map<string, real>, direction: string)
    requires HasAllWeights(w) && direction in DIRECTION_NAMES && WeightTotal(w) > 1.0
    ensures var o := Opposite(direction).value;
            WeightTotal(Rebalanced(w, direction)) == MazeDp.MaxR(1.0, WeightTotal(w) - w[o] + MIN_WEIGHT)
    ensures w[Opposite(direction).value] - (WeightTotal(w) - 1.0) >= MIN_WEIGHT ==>
              WeightTotal(Rebalanced(w, direction)) == 1.0
  {
    var o := Opposite(direction).value;
    var r := Rebalanced(w, direction);
    assert WeightTotal(r) == WeightTotal(w) - w[o] + r[o];
  }

  /** The four weights of balance_weights: 1 / 4 each. */
  function Balanced(): (w: map<string, real>)
    ensures HasAllWeights(w) && WeightTotal(w) == 1.0
    ensures forall d :: d in w ==> d in DIRECTION_NAMES && w[d] == 1.0 / 4.0
  {
    map d | d in DIRECTION_NAMES :: 1.0 / 4.0
  }

  /** One entry of PRESETS. */
  datatype Preset = Preset(width: int, height: int, decayFactor: real, baseProbFactor: real, minRoomProb: real)

  const PRESET_NAMES: seq<string> := ["Small & Simple", "Medium Balanced", "Large Complex", "Narrow Corridors"]

  function PresetNamed(name: string): (r: Option<Preset>)
    ensures r.Some? <==> name in PRESET_NAMES
  {
    if name == "Small & Simple" then Some(Preset(5, 5, 0.3, 0.3, 0.1))
    else if name == "Medium Balanced" then Some(Preset(10, 10, 0.25, 0.25, 0.05))
    else if name == "Large Complex" then Some(Preset(20, 20, 0.2, 0.2, 0.03))
    else if name == "Narrow Corridors" then Some(Preset(25, 25, 0.15, 0.15, 0.02))
    else None
  }

  /** The verdict of validate_all_inputs: refused with the message it shows, or
      accepted, with or without the warning that the weights do not sum to 1. */
  datatype Validation = Refused(message: string) | Accepted(weightWarning: bool)

  const TOO_SMALL: string := "Maze dimensions must be at least 5x5"
  const TOO_LARGE: string := "Maze dimensions cannot exceed 100x100"

  /** validate_all_inputs on the form's numbers. */
  function ValidateInputs(width: int, height: int, totalWeight: real): (v: Validation)
    ensures v.Accepted? <==> 5 <= width <= 100 && 5 <= height <= 100
    ensures v.Refused? ==> (v.message == TOO_SMALL <==> width < 5 || height < 5)
    ensures v.Refused? ==> v.message in {TOO_SMALL, TOO_LARGE}
    ensures v.Accepted? ==> (v.weightWarning <==> MazeDp.AbsR(totalWeight - 1.0) > 0.01)
  {
    if width < 5 || height < 5 then Refused(TOO_SMALL)
    else if width > 100 || height > 100 then Refused(TOO_LARGE)
    else Accepted(MazeDp.AbsR(totalWeight - 1.0) > 0.01)
  }

  /** Every preset, with its balanced weights, passes the checks without a
      warning. */
  lemma PresetsPassValidation(name: string)
    requires name in PRESET_NAMES
    ensures var p := PresetNamed(name).value;
            ValidateInputs(p.width, p.height, WeightTotal(Balanced())) == Accepted(false)
  {
  }

  const TIME_LABELS: seq<string> := ["< 1", "1-3", "3-10", "10+"]

  /** estimate_generation_time: a rough label by the number of cells. */
  function EstimateGenerationTime(width: int, height: int): (estimate: string)
    ensures estimate in TIME_LABELS
    ensures estimate == "< 1" <==> width * height < 500
    ensures estimate == "1-3" <==> 500 <= width * height < 2000
    ensures estimate == "3-10" <==> 2000 <= width * height < 5000
    ensures estimate == "10+" <==> width * height >= 5000
  {
    var cells := width * height;
    if cells < 500 then "< 1"
    else if cells < 2000 then "1-3"
    else if cells < 5000 then "3-10"
    else "10+"
  }

  /** The position of a label in TIME_LABELS, from fastest to slowest. */
  function LabelRank(estimate: string): nat {
    if estimate == "< 1" then 0 else if estimate == "1-3" then 1 else if estimate == "3-10" then 2 else 3
  }

  /** More cells never give a shorter estimate. */
  lemma EstimateMonotone(w1: int, h1: int, w2: int, h2: int)
    requires w1 * h1 <= w2 * h2
    ensures LabelRank(EstimateGenerationTime(w1, h1)) <= LabelRank(EstimateGenerationTime(w2, h2))
  {
  }

  /** The form's parameters. */
  class Form {
    var width: int
    var height: int
    var decayFactor: real
    var baseProbFactor: real
    var minRoomProb: real
    var weights: map<string, real>
    var updatingWeights: bool

    predicate Valid()
      reads this
    {
      HasAllWeights(weights)
    }

    function Parameters(): Preset
      reads this
    {
      Preset(width, height, decayFactor, baseProbFactor, minRoomProb)
    }

    /** __init__: the default values, then the "Medium Balanced" preset. */
    constructor ()
      ensures Valid() && !updatingWeights
      ensures Parameters() == PresetNamed("Medium Balanced").value
      ensures weights == Balanced()
    {
      width := 20;
      height := 20;
      decayFactor := 0.25;
      baseProbFactor := 0.25;
      minRoomProb := 0.05;
      weights := Balanced();
      updatingWeights := false;
      new;
      LoadPreset("Medium Balanced");
    }

    /** `set` on a direction's variable: the value is stored and the write
        callback runs for that direction. */
    method SetWeight(d: string, v: real)
      requires Valid() && d in DIRECTION_NAMES
      modifies this
      decreases if updatingWeights then 0 else 1, 1
      ensures Valid() && updatingWeights == old(updatingWeights)
      ensures Parameters() == old(Parameters())
      ensures old(updatingWeights) ==> weights == old(weights)[d := v]
      ensures !old(updatingWeights) ==> weights == Rebalanced(old(weights)[d := v], d)
    {
      weights := weights[d := v];
      OnWeightChange(d);
    }

    /** _on_weight_change: nothing while the weights are being updated;
        otherwise the rebalancing, whose own write to the opposite variable runs
        the callback again with the updating flag set. */
    method OnWeightChange(direction: string)
      requires Valid()
      modifies this
      decreases if updatingWeights then 0 else 1, 0
      ensures Valid() && updatingWeights == old(updatingWeights)
      ensures Parameters() == old(Parameters())
      ensures old(updatingWeights) ==> weights == old(weights)
      ensures !old(updatingWeights) ==> weights == Rebalanced(old(weights), direction)
    {
      if updatingWeights {
        return;
      }
      var opposite := Opposite(direction);
      if opposite.None? {
        return;
      }
      var total := WeightTotal(weights);
      if total > 1.0 {
        var overflow := total - 1.0;
        var newValue := MazeDp.MaxR(MIN_WEIGHT, weights[opposite.value] - overflow);
        updatingWeights := true;
        SetWeight(opposite.value, newValue);
        updatingWeights := false;
      }
    }

    /** balance_weights: every direction at 1 / 4, and the updating flag is
        cleared however it was set before. */
    method BalanceWeights()
      requires Valid()
      modifies this
      ensures Valid() && !updatingWeights
      ensures Parameters() == old(Parameters())
      ensures weights.Keys == old(weights.Keys)
      ensures forall d :: d in DIRECTION_NAMES ==> weights[d] == 1.0 / 4.0
      ensures WeightTotal(weights) == 1.0
    {
      updatingWeights := true;
      var balancedValue := 1.0 / (|DIRECTION_NAMES| as real);
      for i := 0 to |DIRECTION_NAMES|
        invariant Valid() && updatingWeights
        invariant Parameters() == old(Parameters())
        invariant weights.Keys == old(weights.Keys)
        invariant forall j :: 0 <= j < i ==> weights[DIRECTION_NAMES[j]] == balancedValue
      {
        SetWeight(DIRECTION_NAMES[i], balancedValue);
      }
      updatingWeights := false;
    }

    /** load_preset: an unknown name changes nothing; otherwise the preset's
        five parameters are set and the weights are balanced. */
    method LoadPreset(name: string)
      requires Valid()
      modifies this
      ensures Valid()
      ensures PresetNamed(name).None? ==> Parameters() == old(Parameters()) && weights == old(weights)
                                          && updatingWeights == old(updatingWeights)
      ensures PresetNamed(name).Some? ==>
                Parameters() == PresetNamed(name).value && !updatingWeights
                && weights.Keys == old(weights.Keys) && WeightTotal(weights) == 1.0
                && forall d :: d in DIRECTION_NAMES ==> weights[d] == 1.0 / 4.0
    {
      var preset := PresetNamed(name);
      if preset.None? {
        return;
      }
      var p := preset.value;
      width, height := p.width, p.height;
      decayFactor, baseProbFactor, minRoomProb := p.decayFactor, p.baseProbFactor, p.minRoomProb;
      BalanceWeights();
    }

    /** validate_all_inputs on the form's current values: whether generation
        may start and whether the weight warning is shown. */
    method ValidateAllInputs() returns (ok: bool, warned: bool)
      requires Valid()
      ensures ok <==> 5 <= width <= 100 && 5 <= height <= 100
      ensures warned <==> ok && MazeDp.AbsR(WeightTotal(weights) - 1.0) > 0.01
    {
      var v := ValidateInputs(width, height, WeightTotal(weights));
      ok := v.Accepted?;
      warned := v.Accepted? && v.weightWarning;
    }
  }
}
