/**
 Value alerts: a validated list of intervals splits the number line, and the evaluator's
 linear scan finds the one interval a value lies in
 (alert/protocol.go ValueConfig.validate, alert/evaluator.go EvaluateInt64 and EvaluateFloat64).
 */
module AlertIntervals {
  import opened Wrappers
  import opened AlertModel
  import opened AlertEvaluator

  /** Lower-inclusive, upper-exclusive; a missing bound is unbounded. */
  predicate Contains(valueType: ValueType, interval: Interval, value: real)
    requires Parses(valueType, interval.min) && Parses(valueType, interval.max)
  {
    && (interval.min.Some? ==> value >= BoundValue(valueType, interval.min.value).value)
    && (interval.max.Some? ==> value < BoundValue(valueType, interval.max.value).value)
  }

  /** The boundary between interval k - 1 and interval k. */
  function Boundary(config: ValueConfig, k: nat): real
    requires ValidValue(config) && 1 <= k < |config.intervals|
  {
    assert SharesBoundary(config.valueType, config.intervals[k - 1], config.intervals[k - 1 + 1]);
    BoundValue(config.valueType, config.intervals[k].min.value).value
  }

  /** How many of the first n - 1 boundaries do not exceed the value. */
  function BoundariesPassed(config: ValueConfig, value: real, n: nat): (passed: nat)
    requires ValidValue(config) && n <= |config.intervals|
    ensures n > 0 ==> passed < n
  {
    if n <= 1 then 0
    else BoundariesPassed(config, value, n - 1) + if Boundary(config, n - 1) <= value then 1 else 0
  }

  lemma BoundariesAscend(config: ValueConfig, i: nat, j: nat)
    requires ValidValue(config) && 1 <= i < j < |config.intervals|
    ensures Boundary(config, i) < Boundary(config, j)
  {
    assert ValidInterval(config.valueType, config.intervals[j - 1]);
    assert SharesBoundary(config.valueType, config.intervals[j - 1], config.intervals[j - 1 + 1]);
    assert SharesBoundary(config.valueType, config.intervals[j - 2], config.intervals[j - 2 + 1]);
    assert Boundary(config, j - 1) < Boundary(config, j);
    if i < j - 1 {
      BoundariesAscend(config, i, j - 1);
    }
  }

  lemma {:induction false} PassedSplits(config: ValueConfig, value: real, n: nat, i: nat)
    requires ValidValue(config) && 1 <= i < n <= |config.intervals|
    ensures Boundary(config, i) <= value <==> i <= BoundariesPassed(config, value, n)
  {
    if i < n - 1 {
      PassedSplits(config, value, n - 1, i);
      BoundariesAscend(config, i, n - 1);
    }
    if n >= 3 {
      BoundariesAscend(config, n - 2, n - 1);
      PassedSplits(config, value, n - 1, n - 2);
    }
  }

  /**
   A validated configuration partitions the number line: a value lies in exactly one interval,
   the one whose index is the number of boundaries that do not exceed it.
   */
  lemma IntervalsPartition(config: ValueConfig, value: real, k: nat)
    requires ValidValue(config) && k < |config.intervals|
    ensures ValidInterval(config.valueType, config.intervals[k])
    ensures Contains(config.valueType, config.intervals[k], value)
      <==> k == BoundariesPassed(config, value, |config.intervals|)
  {
    var n := |config.intervals|;
    assert ValidInterval(config.valueType, config.intervals[k]);
    if k > 0 {
      PassedSplits(config, value, n, k);
      assert SharesBoundary(config.valueType, config.intervals[k - 1], config.intervals[k - 1 + 1]);
    }
    if k < n - 1 {
      PassedSplits(config, value, n, k + 1);
      assert SharesBoundary(config.valueType, config.intervals[k], config.intervals[k + 1]);
    }
  }

  /** What a value alert evaluates to; the one failure left after validation is the property lookup. */
  function ValueEvaluation(config: ValueConfig, value: real, properties: map<string, Properties>)
    : Result<Evaluation, EvaluationError>
    requires ValidValue(config)
  {
    var interval := config.intervals[BoundariesPassed(config, value, |config.intervals|)];
    Selected(interval.active, interval.property, interval.text, properties)
  }

  /** The interval that contains the value decides, whichever it is. */
  ghost predicate IntervalDecides(config: ValueConfig, value: real, properties: map<string, Properties>, r: Result<Evaluation, EvaluationError>)
    requires ValidValue(config)
  {
    forall k | 0 <= k < |config.intervals| && Contains(config.valueType, config.intervals[k], value) ::
      Decides(config.intervals[k].active, config.intervals[k].property, config.intervals[k].text, properties, r)
  }

  lemma ContainingIntervalDecides(config: ValueConfig, value: real, properties: map<string, Properties>)
    requires ValidValue(config)
    ensures IntervalDecides(config, value, properties, ValueEvaluation(config, value, properties))
    ensures exists k | 0 <= k < |config.intervals| :: Contains(config.valueType, config.intervals[k], value)
  {
    IntervalsPartition(config, value, BoundariesPassed(config, value, |config.intervals|));
    forall k | 0 <= k < |config.intervals| && Contains(config.valueType, config.intervals[k], value)
      ensures k == BoundariesPassed(config, value, |config.intervals|)
    {
      IntervalsPartition(config, value, k);
    }
  }

  /** The linear scan shared by both evaluators, on the parsed bounds. */
  method ScanIntervals(config: ValueConfig, value: real, properties: map<string, Properties>)
    returns (r: Result<Evaluation, EvaluationError>)
    requires ValidValue(config)
    ensures r == ValueEvaluation(config, value, properties)
    ensures IntervalDecides(config, value, properties, r)
  {
    ContainingIntervalDecides(config, value, properties);
    for i := 0 to |config.intervals|
      invariant i <= BoundariesPassed(config, value, |config.intervals|)
    {
      IntervalsPartition(config, value, i);
      var interval := config.intervals[i];
      if Contains(config.valueType, interval, value) {
        return Selected(interval.active, interval.property, interval.text, properties);
      }
    }
    assert false;
    r := Err(NotCovered);
  }

  /** EvaluateValue with its two typed evaluators, as a function of the configuration and the input. */
  function InputEvaluation(config: ValueConfig, input: Input, properties: map<string, Properties>)
    : Result<Evaluation, EvaluationError>
  {
    match (config.valueType, input)
    case (Int64, IntInput(i)) =>
      if !ValidValue(config) then Err(InvalidConfig) else ValueEvaluation(config, i as real, properties)
    case (Float64, FloatInput(f)) =>
      if !f.Finite? then Err(NotFinite)
      else if !ValidValue(config) then Err(InvalidConfig)
      else ValueEvaluation(config, f.r, properties)
    case _ => Err(WrongType)
  }

  /** The number an input of the configured type stands for; no other input can be evaluated. */
  function NumberIn(valueType: ValueType, input: Input): Option<real> {
    match input
    case IntInput(i) => if valueType == Int64 then Some(i as real) else None
    case FloatInput(Finite(r)) => if valueType == Float64 then Some(r) else None
    case _ => None
  }

  /** A value alert fails without a number of its type; otherwise the interval that contains the number decides. */
  ghost predicate InputDecides(config: ValueConfig, input: Input, properties: map<string, Properties>, r: Result<Evaluation, EvaluationError>) {
    if ValidValue(config) && NumberIn(config.valueType, input).Some?
    then IntervalDecides(config, NumberIn(config.valueType, input).value, properties, r)
    else r.Err?
  }

  lemma ValueMeaning(config: ValueConfig, input: Input, properties: map<string, Properties>)
    ensures InputDecides(config, input, properties, InputEvaluation(config, input, properties))
  {
    if ValidValue(config) && NumberIn(config.valueType, input).Some? {
      ContainingIntervalDecides(config, NumberIn(config.valueType, input).value, properties);
    }
  }

  method EvaluateValue(config: ValueConfig, input: Input, properties: map<string, Properties>)
    returns (r: Result<Evaluation, EvaluationError>)
    ensures r == InputEvaluation(config, input, properties)
    ensures InputDecides(config, input, properties, r)
    ensures r != Err(NotCovered)
  {
    ValueMeaning(config, input, properties);
    match config.valueType {
      case Int64 =>
        if !input.IntInput? {
          return Err(WrongType);
        }
        if !ValidValue(config) {
          return Err(InvalidConfig);
        }
        r := ScanIntervals(config, input.i as real, properties);
      case Float64 =>
        if !input.FloatInput? {
          return Err(WrongType);
        }
        if !input.f.Finite? {
          return Err(NotFinite);
        }
        if !ValidValue(config) {
          return Err(InvalidConfig);
        }
        r := ScanIntervals(config, input.f.r, properties);
      case UnknownValueType =>
        r := Err(WrongType);
    }
  }

  lemma InputEvaluationIsWellFormed(config: ValueConfig, input: Input, properties: map<string, Properties>)
    ensures var r := InputEvaluation(config, input, properties); r.Ok? ==> WellFormed(r.value) && !r.value.pending
  {
    if InputEvaluation(config, input, properties).Ok? {
      var value := if input.IntInput? then input.i as real else input.f.r;
      var k := BoundariesPassed(config, value, |config.intervals|);
      assert ValidInterval(config.valueType, config.intervals[k]);
      SelectedIsWellFormed(config.intervals[k].active, config.intervals[k].property, config.intervals[k].text, properties);
    }
  }
}
