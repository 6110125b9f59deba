/**
 The records of the alert protocol and the rules that make a record valid
 (alert/model.go and alert/protocol.go).

 Two details of Go values are kept because the service compares states with a
 deep equality: a time remembers whether it was decoded as UTC or with an
 explicit offset (an offset of zero seconds is still a different value), and a
 member list remembers whether it is nil or empty.
 */
module AlertModel {
  import opened Wrappers
  import opened Sequences

  const CURRENT_VERSION := 1
  const PROPERTIES_PREFIX := "AlertProperties."
  const CONFIG_SUFFIX := ".alert_config"
  const ALERT_SUFFIX := ".alert"

  datatype Zone = Utc | Offset(seconds: int)

  datatype Time = Time(instant: int, zone: Zone) {
    predicate IsUtc() {
      zone.Utc? || zone.seconds == 0
    }
  }

  /** The current time as the service stores it. */
  function At(now: int): Time {
    Time(now, Utc)
  }

  datatype StringSlice = NilSlice | Slice(items: seq<string>) {
    function Items(): seq<string> {
      if NilSlice? then [] else items
    }
  }

  /** Appending to a nil slice leaves nil when there is nothing to append. */
  function SliceOf(items: seq<string>): StringSlice {
    if items == [] then NilSlice else Slice(items)
  }

  datatype Presentation = Presentation(
    property: string,
    color: string,
    abbreviation: string,
    shortSign: string,
    priority: int,
    requiresAcknowledgement: bool)

  const NO_PRESENTATION := Presentation("", "", "", "", 0, false)

  datatype State = State(
    version: int,
    active: bool,
    pending: bool,
    presentation: Presentation,
    text: string,
    acknowledged: bool,
    cameTime: Option<Time>,
    wentTime: Option<Time>,
    ackTime: Option<Time>,
    dominant: string,
    members: StringSlice,
    episodeId: string)

  datatype Evaluation = Evaluation(
    active: bool,
    pending: bool,
    acknowledged: bool,
    presentation: Presentation,
    text: string,
    dominant: string,
    members: seq<string>)

  /** The evaluation used to force an alert inactive. */
  const INACTIVE := Evaluation(false, false, true, NO_PRESENTATION, "", "", [])

  datatype Properties = Properties(
    version: int,
    color: string,
    abbreviation: string,
    shortSign: string,
    priority: int,
    requiresAcknowledgement: bool)

  datatype Mapping = Mapping(property: string, text: string)

  datatype BinaryConfig = BinaryConfig(badValue: bool, onTrue: Mapping, onFalse: Mapping)

  /** A JSON number literal, with what the two Go parsers make of it. */
  datatype Literal = Literal(asInt: Option<int>, asFloat: Option<real>)

  datatype Interval = Interval(
    min: Option<Literal>,
    max: Option<Literal>,
    active: bool,
    property: string,
    text: string)

  datatype ValueType = Int64 | Float64 | UnknownValueType

  datatype ValueConfig = ValueConfig(valueType: ValueType, intervals: seq<Interval>)

  datatype Kind = BinaryKind | ValueKind | SummaryKind | UnknownKind

  datatype Config = Config(
    version: int,
    enabled: bool,
    kind: Kind,
    binary: Option<BinaryConfig>,
    value: Option<ValueConfig>,
    summary: Option<seq<string>>)

  /** A decoded stream value, typed as it arrived. */
  datatype Float = NaN | Infinite | Finite(r: real)

  datatype Input = NoInput | BoolInput(b: bool) | IntInput(i: int) | FloatInput(f: Float) | OtherInput

  // ---------------------------------------------------------------- subjects

  predicate IsSpace(c: char) {
    || '\U{0009}' <= c <= '\U{000D}' || c == ' ' || c == '\U{0085}' || c == '\U{00A0}'
    || c == '\U{1680}' || '\U{2000}' <= c <= '\U{200A}' || c == '\U{2028}' || c == '\U{2029}'
    || c == '\U{202F}' || c == '\U{205F}' || c == '\U{3000}'
  }

  predicate Blank(s: string) {
    forall c <- s :: IsSpace(c)
  }

  predicate ValidSubject(subject: string) {
    && subject != ""
    && !IsSpace(subject[0]) && !IsSpace(subject[|subject| - 1])
    && subject[0] != '.' && subject[|subject| - 1] != '.'
    && (forall i | 0 <= i < |subject| - 1 :: subject[i] != '.' || subject[i + 1] != '.')
    && (forall c <- subject :: c !in " \t\r\n*>")
  }

  predicate HasSuffix(s: string, suffix: string) {
    |suffix| <= |s| && s[|s| - |suffix|..] == suffix
  }

  function TrimSuffix(s: string, suffix: string): string {
    if HasSuffix(s, suffix) then s[..|s| - |suffix|] else s
  }

  predicate ValidPropertyReference(subject: string) {
    && ValidSubject(subject)
    && PROPERTIES_PREFIX < subject
    && '.' !in subject[|PROPERTIES_PREFIX|..]
  }

  predicate ValidAlertSubject(subject: string) {
    ValidSubject(subject) && HasSuffix(subject, ALERT_SUFFIX)
  }

  /** The telemetry subject an alert config monitors. */
  function InputSubject(configSubject: string): Option<string> {
    var base := TrimSuffix(configSubject, CONFIG_SUFFIX);
    if !ValidSubject(configSubject) || base == configSubject || base == "" then None else Some(base)
  }

  /** The subject an alert publishes its state on. */
  function OutputSubject(configSubject: string): Option<string> {
    match InputSubject(configSubject)
    case None => None
    case Some(input) => Some(input + ALERT_SUFFIX)
  }

  /** Two config subjects never share an input or an output subject. */
  lemma DerivedSubjectsAreInjective(a: string, b: string)
    requires InputSubject(a).Some? && InputSubject(b).Some?
    ensures InputSubject(a) == InputSubject(b) ==> a == b
    ensures OutputSubject(a) == OutputSubject(b) ==> a == b
  {
    assert a == InputSubject(a).value + CONFIG_SUFFIX;
    assert b == InputSubject(b).value + CONFIG_SUFFIX;
    if OutputSubject(a) == OutputSubject(b) {
      var x, y := InputSubject(a).value, InputSubject(b).value;
      assert x == (x + ALERT_SUFFIX)[..|x|];
      assert y == (y + ALERT_SUFFIX)[..|y|];
      assert |x + ALERT_SUFFIX| == |y + ALERT_SUFFIX|;
    }
  }

  // ---------------------------------------------------------------- validity

  predicate ValidProperties(p: Properties) {
    && p.version == CURRENT_VERSION
    && !Blank(p.color) && !Blank(p.abbreviation) && !Blank(p.shortSign)
    && p.priority >= 0
  }

  predicate ValidPresentation(p: Presentation) {
    p == NO_PRESENTATION ||
    (ValidPropertyReference(p.property) && !Blank(p.color) && !Blank(p.abbreviation) && !Blank(p.shortSign))
  }

  predicate ValidMembers(members: seq<string>, dominant: string) {
    && (forall m <- members :: ValidAlertSubject(m))
    && Distinct(members)
    && (dominant != "" ==> dominant in members)
  }

  predicate ValidLifecycle(s: State) {
    && !(s.pending && s.acknowledged)
    && (s.active ==> s.episodeId != "" && s.cameTime.Some? && s.wentTime.None?)
    && (s.wentTime.Some? ==> s.cameTime.Some?)
    && (s.ackTime.Some? ==> s.acknowledged)
    && (s.cameTime.Some? ==> s.cameTime.value.IsUtc())
    && (s.wentTime.Some? ==> s.wentTime.value.IsUtc())
    && (s.ackTime.Some? ==> s.ackTime.value.IsUtc())
  }

  /** The runtime-state invariants every stored and published state meets. */
  predicate ValidState(s: State) {
    && s.version == CURRENT_VERSION
    && ValidLifecycle(s)
    && ValidPresentation(s.presentation)
    && ValidMembers(s.members.Items(), s.dominant)
  }

  predicate ValidMapping(mapping: Mapping, active: bool) {
    && (if active then ValidPropertyReference(mapping.property) else mapping.property == "")
    && !Blank(mapping.text)
  }

  predicate ValidBinary(config: BinaryConfig) {
    ValidMapping(config.onTrue, config.badValue) && ValidMapping(config.onFalse, !config.badValue)
  }

  predicate ValidSummary(members: seq<string>) {
    && members != []
    && (forall m <- members :: ValidAlertSubject(m) && m != ALERT_SUFFIX)
    && Distinct(members)
  }

  /** The value a bound stands for, or None when the literal does not parse. */
  function BoundValue(valueType: ValueType, bound: Literal): Option<real> {
    match valueType
    case Int64 => (match bound.asInt case Some(i) => Some(i as real) case None => None)
    case _ => bound.asFloat
  }

  predicate Parses(valueType: ValueType, bound: Option<Literal>) {
    bound.Some? ==> BoundValue(valueType, bound.value).Some?
  }

  predicate ValidInterval(valueType: ValueType, interval: Interval) {
    && (if interval.active then ValidPropertyReference(interval.property) else interval.property == "")
    && !Blank(interval.text)
    && Parses(valueType, interval.min) && Parses(valueType, interval.max)
    && (interval.min.Some? && interval.max.Some? ==>
          BoundValue(valueType, interval.min.value).value < BoundValue(valueType, interval.max.value).value)
  }

  predicate SharesBoundary(valueType: ValueType, previous: Interval, current: Interval) {
    && previous.max.Some? && current.min.Some?
    && BoundValue(valueType, previous.max.value).Some?
    && BoundValue(valueType, previous.max.value) == BoundValue(valueType, current.min.value)
  }

  predicate ValidValue(config: ValueConfig) {
    var n := |config.intervals|;
    && !config.valueType.UnknownValueType?
    && n > 0
    && (forall i | 0 <= i < n :: ValidInterval(config.valueType, config.intervals[i]))
    && config.intervals[0].min.None?
    && config.intervals[n - 1].max.None?
    && (forall i | 0 <= i < n - 1 :: SharesBoundary(config.valueType, config.intervals[i], config.intervals[i + 1]))
  }

  predicate ValidConfig(config: Config) {
    && config.version == CURRENT_VERSION
    && match config.kind
       case BinaryKind => config.binary.Some? && config.value.None? && config.summary.None? && ValidBinary(config.binary.value)
       case ValueKind => config.binary.None? && config.value.Some? && config.summary.None? && ValidValue(config.value.value)
       case SummaryKind => config.binary.None? && config.value.None? && config.summary.Some? && ValidSummary(config.summary.value)
       case UnknownKind => false
  }

  predicate ValidConfigFor(config: Config, subject: string) {
    && ValidConfig(config)
    && OutputSubject(subject).Some?
    && (config.summary.Some? ==> OutputSubject(subject).value !in config.summary.value)
  }
}
