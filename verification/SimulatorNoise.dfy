/**
 The plant simulator (simulator/node-red/lib/simulator.js): plants stepped together, each drawing
 its measurement noise from its own 32-bit linear congruential generator. Measurements are real
 numbers here; seeds are exact 32-bit words.
 */
module SimulatorNoise {
  import opened Wrappers
  import opened Sequences
  import opened Words

  const MAX_INSTANCE_COUNT: nat := 999

  // ---------------------------------------------------------------- generators

  /** Both multipliers are odd, so each has an inverse modulo 2^32. */
  lemma DrawingIsInvertible(d: int, q: int)
    requires -WORD < d < WORD && d * 1664525 == WORD * q
    ensures d == 0
  {
    assert 1664525 * 4276115653 == 1 + WORD * 1657219;
    OnlyZeroIsAMultiple(d, q * 4276115653 - d * 1657219);
  }

  lemma SeedingIsInvertible(d: int, q: int)
    requires -WORD < d < WORD && d * 0x9e3779b9 == WORD * q
    ensures d == 0
  {
    assert 0x9e3779b9 * 340573321 == 1 + WORD * 210485888;
    OnlyZeroIsAMultiple(d, q * 340573321 - d * 210485888);
  }

  // ---------------------------------------------------------------- seeds

  /** The product the seed is scrambled with; plants are numbered from one. */
  function Spread(index: nat): Word {
    (index + 1) * 0x9e3779b9 % WORD
  }

  function InitialSeed(index: nat): Word {
    WordsHave32Bits();
    XorFits(0x5ca1ab1e, Spread(index), 32);
    Xor(0x5ca1ab1e, Spread(index), 32)
  }

  lemma InitialSeedsDiffer(i: nat, j: nat)
    requires i < WORD - 1 && j < WORD - 1 && InitialSeed(i) == InitialSeed(j)
    ensures i == j
  {
    WordsHave32Bits();
    XorCancels(0x5ca1ab1e, Spread(i), Spread(j), 32);
    SpreadIsInjective(i, j);
  }

  lemma SpreadIsInjective(i: nat, j: nat)
    requires i < WORD - 1 && j < WORD - 1 && Spread(i) == Spread(j)
    ensures i == j
  {
    SeedingIsInvertible(i - j, (i + 1) * 0x9e3779b9 / WORD - (j + 1) * 0x9e3779b9 / WORD);
  }

  function NextSeed(seed: Word): Word {
    (seed * 1664525 + 1013904223) % WORD
  }

  /** The seed after n draws. */
  function Drawn(seed: Word, n: nat): Word {
    if n == 0 then seed else NextSeed(Drawn(seed, n - 1))
  }

  lemma NextSeedIsInjective(a: Word, b: Word)
    requires NextSeed(a) == NextSeed(b)
    ensures a == b
  {
    DrawingIsInvertible(a - b, (a * 1664525 + 1013904223) / WORD - (b * 1664525 + 1013904223) / WORD);
  }

  lemma {:induction false} DrawnIsInjective(a: Word, b: Word, n: nat)
    requires Drawn(a, n) == Drawn(b, n)
    ensures a == b
  {
    if n > 0 {
      NextSeedIsInjective(Drawn(a, n - 1), Drawn(b, n - 1));
      DrawnIsInjective(a, b, n - 1);
    }
  }

  /** Two plants that have drawn equally often never have the same seed. */
  lemma SeedsNeverCoincide(i: nat, j: nat, draws: nat)
    requires i != j && i < WORD - 1 && j < WORD - 1
    ensures Drawn(InitialSeed(i), draws) != Drawn(InitialSeed(j), draws)
  {
    if Drawn(InitialSeed(i), draws) == Drawn(InitialSeed(j), draws) {
      DrawnIsInjective(InitialSeed(i), InitialSeed(j), draws);
      InitialSeedsDiffer(i, j);
    }
  }

  // ---------------------------------------------------------------- plants

  function Clamp(value: real, min: real, max: real): (r: real)
    requires min <= max
    ensures min <= r <= max && (min <= value <= max ==> r == value)
  {
    if value < min then min else if value > max then max else value
  }

  function AtLeastZero(value: real): real {
    if value < 0.0 then 0.0 else value
  }

  lemma ProductIsNotNegative(a: real, b: real)
    requires a >= 0.0 && b >= 0.0
    ensures a * b >= 0.0
  {
  }

  lemma PartIsBetween(whole: real, part: real, taken: real)
    requires 0.0 <= part <= 1.0 && taken == whole * part
    ensures whole >= 0.0 ==> 0.0 <= taken <= whole
    ensures whole <= 0.0 ==> whole <= taken <= 0.0
  {
    var size := if whole >= 0.0 then whole else -whole;
    ProductIsNotNegative(size, part);
    ProductIsNotNegative(size, 1.0 - part);
    assert size * (1.0 - part) == size - size * part;
    assert whole < 0.0 ==> size * part == -(whole * part);
  }

  lemma StaysBetween(value: real, target: real, taken: real)
    requires target >= value ==> 0.0 <= taken <= target - value
    requires target <= value ==> target - value <= taken <= 0.0
    ensures value <= target ==> value <= value + taken <= target
    ensures target <= value ==> target <= value + taken <= value
  {
  }

  /** Moving part of the way towards a target stays between the two. */
  method Approach(value: real, target: real, amount: real) returns (moved: real)
    ensures value <= target ==> value <= moved <= target
    ensures target <= value ==> target <= moved <= value
  {
    var part := Clamp(amount, 0.0, 1.0);
    var taken := (target - value) * part;
    PartIsBetween(target - value, part, taken);
    StaysBetween(value, target, taken);
    moved := value + taken;
  }

  /** One step of a quantity at a rate, kept in its range. */
  method Advance(value: real, rate: real, dt: real, min: real, max: real) returns (next: real)
    requires min <= max
    ensures min <= next <= max
  {
    next := Clamp(value + rate * dt, min, max);
  }

  method Scaled(seed: Word, amplitude: real) returns (noise: real)
    requires amplitude >= 0.0
    ensures -amplitude <= noise <= amplitude
  {
    var share := seed as real / 4294967295.0 * 2.0 - 1.0;
    noise := amplitude * share;
    if share >= 0.0 {
      PartIsBetween(amplitude, share, noise);
    } else {
      PartIsBetween(-amplitude, -share, noise);
    }
  }

  datatype Controls = Controls(
    automatic: bool, inletCommand: real, outletCommand: real, coolingCommand: real, pump1Command: bool, pump2Command: bool
  )

  datatype Faults = Faults(
    pump1Trip: bool, pump2Trip: bool, inletStuck: bool, outletStuck: bool,
    highTemperature: bool, sensorFreeze: bool, sensorBad: bool
  )

  const DEFAULT_CONTROLS := Controls(true, 70.0, 45.0, 40.0, true, false)
  const DEFAULT_FAULTS := Faults(false, false, false, false, false, false, false)

  /** A control message: what it says as a flag, and as a finite number if it is one. */
  datatype Payload = Payload(flag: bool, number: real, finite: bool)

  /** The topics that address the simulation, not a plant. */
  predicate Steers(topic: string) {
    topic in ["selectedInstance", "selectedTank", "speed"]
  }

  predicate InRange(c: Controls) {
    0.0 <= c.inletCommand <= 100.0 && 0.0 <= c.outletCommand <= 100.0 && 0.0 <= c.coolingCommand <= 100.0
  }

  datatype Fault = Pump1Trip | Pump2Trip | InletStuck | OutletStuck | HighTemperature | SensorFreeze | SensorBad

  datatype Switch = Automatic | Pump1 | Pump2

  datatype Level = Inlet | Outlet | Cooling

  function FaultNamed(topic: string): Option<Fault> {
    match topic
    case "pump1Trip" => Some(Pump1Trip)
    case "pump2Trip" => Some(Pump2Trip)
    case "inletStuck" => Some(InletStuck)
    case "outletStuck" => Some(OutletStuck)
    case "highTemperature" => Some(HighTemperature)
    case "sensorFreeze" => Some(SensorFreeze)
    case "sensorBad" => Some(SensorBad)
    case _ => None
  }

  function SwitchNamed(topic: string): Option<Switch> {
    match topic
    case "automatic" => Some(Automatic)
    case "pump1Command" => Some(Pump1)
    case "pump2Command" => Some(Pump2)
    case _ => None
  }

  function LevelNamed(topic: string): Option<Level> {
    match topic
    case "inletCommand" => Some(Inlet)
    case "outletCommand" => Some(Outlet)
    case "coolingCommand" => Some(Cooling)
    case _ => None
  }

  function Commanded(c: Controls, topic: string, payload: Payload): (commanded: Controls)
    ensures InRange(c) ==> InRange(commanded)
  {
    match SwitchNamed(topic)
    case Some(Automatic) => c.(automatic := payload.flag)
    case Some(Pump1) => c.(pump1Command := payload.flag)
    case Some(Pump2) => c.(pump2Command := payload.flag)
    case None =>
      match LevelNamed(topic)
      case None => c
      case Some(level) =>
        if !payload.finite then c
        else
          match level
          case Inlet => c.(inletCommand := Clamp(payload.number, 0.0, 100.0))
          case Outlet => c.(outletCommand := Clamp(payload.number, 0.0, 100.0))
          case Cooling => c.(coolingCommand := Clamp(payload.number, 0.0, 100.0))
  }

  function With(f: Faults, fault: Fault, flag: bool): Faults {
    match fault
    case Pump1Trip => f.(pump1Trip := flag)
    case Pump2Trip => f.(pump2Trip := flag)
    case InletStuck => f.(inletStuck := flag)
    case OutletStuck => f.(outletStuck := flag)
    case HighTemperature => f.(highTemperature := flag)
    case SensorFreeze => f.(sensorFreeze := flag)
    case SensorBad => f.(sensorBad := flag)
  }

  function Faulted(f: Faults, topic: string, payload: Payload): Faults {
    match FaultNamed(topic)
    case Some(fault) => With(f, fault, payload.flag)
    case None => if topic == "resetFaults" then DEFAULT_FAULTS else f
  }

  /** Whether a plant has a fault. */
  predicate Has(f: Faults, fault: Fault) {
    match fault
    case Pump1Trip => f.pump1Trip
    case Pump2Trip => f.pump2Trip
    case InletStuck => f.inletStuck
    case OutletStuck => f.outletStuck
    case HighTemperature => f.highTemperature
    case SensorFreeze => f.sensorFreeze
    case SensorBad => f.sensorBad
  }

  /** The topic that sets a fault. */
  function FaultTopic(fault: Fault): string {
    match fault
    case Pump1Trip => "pump1Trip"
    case Pump2Trip => "pump2Trip"
    case InletStuck => "inletStuck"
    case OutletStuck => "outletStuck"
    case HighTemperature => "highTemperature"
    case SensorFreeze => "sensorFreeze"
    case SensorBad => "sensorBad"
  }

  lemma FaultTopicsNameFaults(topic: string, fault: Fault)
    ensures FaultNamed(topic) == Some(fault) <==> topic == FaultTopic(fault)
  {
  }

  lemma ResetIsNoFault()
    ensures FaultNamed("resetFaults") == None
  {
  }

  lemma WithChangesOne(f: Faults, fault: Fault, flag: bool, other: Fault)
    ensures Has(With(f, fault, flag), other) <==> if fault == other then flag else Has(f, other)
  {
  }

  /** Of the faults exactly the one the topic sets changes, to the flag; a reset clears all of them. */
  lemma FaultIsAddressed(f: Faults, topic: string, payload: Payload, fault: Fault)
    ensures Has(Faulted(f, topic, payload), fault) <==>
      if topic == FaultTopic(fault) then payload.flag else topic != "resetFaults" && Has(f, fault)
  {
    FaultTopicsNameFaults(topic, fault);
    if topic == "resetFaults" {
      ResetIsNoFault();
    } else if FaultNamed(topic).Some? {
      WithChangesOne(f, FaultNamed(topic).value, payload.flag, fault);
    }
  }

  predicate IsOn(c: Controls, switch: Switch) {
    match switch
    case Automatic => c.automatic
    case Pump1 => c.pump1Command
    case Pump2 => c.pump2Command
  }

  function SwitchTopic(switch: Switch): string {
    match switch
    case Automatic => "automatic"
    case Pump1 => "pump1Command"
    case Pump2 => "pump2Command"
  }

  function PercentageOf(c: Controls, level: Level): real {
    match level
    case Inlet => c.inletCommand
    case Outlet => c.outletCommand
    case Cooling => c.coolingCommand
  }

  function LevelTopic(level: Level): string {
    match level
    case Inlet => "inletCommand"
    case Outlet => "outletCommand"
    case Cooling => "coolingCommand"
  }

  lemma TopicsNameControls(topic: string, switch: Switch, level: Level)
    ensures SwitchNamed(topic) == Some(switch) <==> topic == SwitchTopic(switch)
    ensures LevelNamed(topic) == Some(level) <==> topic == LevelTopic(level)
    ensures SwitchNamed(topic).None? || LevelNamed(topic).None?
  {
  }

  /** The value of the range that is nearest. */
  predicate Nearest(x: real, value: real, min: real, max: real) {
    min <= x <= max && (min <= value <= max ==> x == value) && (value < min ==> x == min) && (value > max ==> x == max)
  }

  /** Of the controls exactly the one the topic sets changes: a switch to the flag, a percentage to the nearest of a number. */
  lemma ControlIsAddressed(c: Controls, topic: string, payload: Payload, switch: Switch, level: Level)
    ensures var after := Commanded(c, topic, payload);
      && (IsOn(after, switch) <==> if topic == SwitchTopic(switch) then payload.flag else IsOn(c, switch))
      && if topic == LevelTopic(level) && payload.finite then Nearest(PercentageOf(after, level), payload.number, 0.0, 100.0)
         else PercentageOf(after, level) == PercentageOf(c, level)
  {
    TopicsNameControls(topic, switch, level);
  }

  class Plant {
    const id: nat
    var tick: nat
    var seed: Word
    /** How many numbers the plant has drawn. */
    ghost var draws: nat
    var level: real
    var temperature: real
    var pressure: real
    var inletPosition: real
    var outletPosition: real
    var coolingValvePosition: real
    var pump1Speed: real
    var pump2Speed: real
    var pump1Current: real
    var pump2Current: real
    var dischargePressure: real
    var totalFlow: real
    var vibration: real
    var ambientTemperature: real
    var conductivity: real
    var controls: Controls
    var faults: Faults

    ghost predicate Valid()
      reads this
    {
      SeedIsDrawn() && PositionsInRange() && ProcessInRange() && EquipmentInRange() && InRange(controls)
    }

    ghost predicate SeedIsDrawn()
      reads `seed, `draws
    {
      id > 0 && seed == Drawn(InitialSeed(id - 1), draws)
    }

    predicate PositionsInRange()
      reads `inletPosition, `outletPosition, `coolingValvePosition, `pump1Speed, `pump2Speed
    {
      && 0.0 <= inletPosition <= 100.0 && 0.0 <= outletPosition <= 100.0 && 0.0 <= coolingValvePosition <= 100.0
      && 0.0 <= pump1Speed <= 72.0 && 0.0 <= pump2Speed <= 65.0
    }

    predicate ProcessInRange()
      reads `level, `temperature, `pressure, `dischargePressure, `totalFlow
    {
      && 0.0 <= level <= 100.0 && -20.0 <= temperature <= 130.0
      && 0.0 <= pressure <= 10.0 && 0.0 <= dischargePressure <= 12.0 && 0.0 <= totalFlow
    }

    predicate EquipmentInRange()
      reads `pump1Current, `pump2Current, `vibration, `ambientTemperature, `conductivity
    {
      && 0.0 <= pump1Current && 0.0 <= pump2Current && 0.0 <= vibration
      && 15.0 <= ambientTemperature <= 30.0 && 0.0 <= conductivity <= 2000.0
    }

    /** Plant number `index`, after so many steps of seven draws. */
    ghost predicate InStep(index: nat, steps: nat)
      reads this
    {
      Valid() && id == index + 1 && draws == 7 * steps
    }

    constructor (index: nat)
      ensures Valid() && id == index + 1 && draws == 0
    {
      id, tick, seed, draws := index + 1, 0, InitialSeed(index), 0;
      level, temperature, pressure := 55.0, 24.0, 2.1;
      inletPosition, outletPosition, coolingValvePosition := 70.0, 45.0, 40.0;
      pump1Speed, pump2Speed, pump1Current, pump2Current := 72.0, 0.0, 18.0, 0.0;
      dischargePressure, totalFlow, vibration := 3.4, 42.0, 1.2;
      ambientTemperature, conductivity := 21.0, 480.0;
      controls, faults := DEFAULT_CONTROLS, DEFAULT_FAULTS;
    }

    method NextNoise(amplitude: real) returns (noise: real)
      requires amplitude >= 0.0 && SeedIsDrawn()
      modifies `seed, `draws
      ensures SeedIsDrawn() && draws == old(draws) + 1 && -amplitude <= noise <= amplitude
    {
      seed := NextSeed(seed);
      draws := draws + 1;
      noise := Scaled(seed, amplitude);
    }

    /** The automatic controller. */
    method Regulate()
      modifies `controls
      ensures InRange(controls) && controls.automatic
      ensures controls.pump1Command == (level > 18.0) && controls.pump2Command == (level > 72.0)
    {
      var levelError := 60.0 - level;
      controls := Controls(
        true,
        Clamp(58.0 + levelError * 1.8, 5.0, 100.0),
        Clamp(42.0 - levelError * 0.7, 5.0, 90.0),
        Clamp(35.0 + (temperature - 25.0) * 5.0, 10.0, 100.0),
        level > 18.0,
        level > 72.0);
    }

    /** Valves and pumps move towards their commands; a stuck valve does not move. */
    method Actuate(dt: real) returns (pump1Running: bool, pump2Running: bool)
      requires PositionsInRange() && InRange(controls)
      modifies `inletPosition, `outletPosition, `coolingValvePosition, `pump1Speed, `pump2Speed
      ensures PositionsInRange()
      ensures faults.inletStuck ==> inletPosition == old(inletPosition)
      ensures faults.outletStuck ==> outletPosition == old(outletPosition)
      ensures !pump1Running ==> pump1Speed <= old(pump1Speed)
      ensures !pump2Running ==> pump2Speed <= old(pump2Speed)
      ensures pump1Running == (controls.pump1Command && !faults.pump1Trip && level > 3.0)
      ensures pump2Running == (controls.pump2Command && !faults.pump2Trip && level > 3.0)
    {
      if !faults.inletStuck {
        inletPosition := Approach(inletPosition, controls.inletCommand, 0.18 * dt);
      }
      if !faults.outletStuck {
        outletPosition := Approach(outletPosition, controls.outletCommand, 0.18 * dt);
      }
      coolingValvePosition := Approach(coolingValvePosition, controls.coolingCommand, 0.15 * dt);
      pump1Running := controls.pump1Command && !faults.pump1Trip && level > 3.0;
      pump2Running := controls.pump2Command && !faults.pump2Trip && level > 3.0;
      pump1Speed := Approach(pump1Speed, if pump1Running then 72.0 else 0.0, 0.25 * dt);
      pump2Speed := Approach(pump2Speed, if pump2Running then 65.0 else 0.0, 0.25 * dt);
    }

    /** Flow, level, temperature and pressures; three noisy measurements. */
    method MeasureProcess(dt: real, pump1Running: bool, pump2Running: bool)
      requires SeedIsDrawn()
      modifies `seed, `draws, `totalFlow, `level, `temperature, `pressure, `dischargePressure
      ensures SeedIsDrawn() && draws == old(draws) + 3 && ProcessInRange()
    {
      var inletFlow, valveOutflow := inletPosition * 0.42, outletPosition * 0.16;
      var pumpedFlow := pump1Speed * 0.36 + pump2Speed * 0.32;
      var noise := NextNoise(0.25);
      totalFlow := AtLeastZero(valveOutflow + pumpedFlow + noise);
      level := Advance(level, (inletFlow - totalFlow) * 0.018, dt, 0.0, 100.0);

      var temperatureTarget := if faults.highTemperature then 96.0
        else ambientTemperature + 3.0 + (if pump1Running then 2.5 else 0.0) + if pump2Running then 2.0 else 0.0;
      var cooling := coolingValvePosition * 0.018;
      temperature := Advance(
        temperature, (temperatureTarget - temperature) * 0.012 - cooling * 0.025, dt, -20.0, 130.0);
      noise := NextNoise(0.015);
      pressure := Clamp(0.8 + level * 0.027 + pumpedFlow * 0.035 + noise, 0.0, 10.0);
      noise := NextNoise(0.02);
      dischargePressure := Clamp(0.6 + pumpedFlow * 0.075 + noise, 0.0, 12.0);
    }

    /** Currents, vibration, ambient temperature and conductivity; four noisy measurements. */
    method MeasureEquipment(sin: real -> real)
      requires SeedIsDrawn()
      modifies `seed, `draws, `tick, `pump1Current, `pump2Current, `vibration, `ambientTemperature, `conductivity
      ensures SeedIsDrawn() && draws == old(draws) + 4 && EquipmentInRange() && tick == old(tick) + 1
    {
      var noise := NextNoise(0.08);
      pump1Current := AtLeastZero(pump1Speed * 0.25 + noise);
      noise := NextNoise(0.08);
      pump2Current := AtLeastZero(pump2Speed * 0.27 + noise);
      noise := NextNoise(0.03);
      vibration := AtLeastZero(0.25 + (pump1Speed + pump2Speed) * 0.009 + noise);
      ambientTemperature := Clamp(21.0 + sin(tick as real / 90.0) * 2.0, 15.0, 30.0);
      noise := NextNoise(1.2);
      conductivity := Clamp(470.0 + level * 0.25 + noise, 0.0, 2000.0);
      tick := tick + 1;
    }

    /** Seven draws on every path, and everything stays in range whatever the time step. */
    method StepPlant(dt: real, sin: real -> real)
      requires Valid()
      modifies this
      ensures Valid() && draws == old(draws) + 7
      ensures tick == old(tick) + 1 && faults == old(faults)
      ensures controls.automatic == old(controls.automatic)
      ensures !controls.automatic ==> controls == old(controls)
    {
      if controls.automatic {
        Regulate();
      }
      var pump1Running, pump2Running := Actuate(dt);
      MeasureProcess(dt, pump1Running, pump2Running);
      MeasureEquipment(sin);
    }

    /** A control or a fault changes; the seed does not. */
    method Control(topic: string, payload: Payload)
      requires Valid()
      modifies `controls, `faults
      ensures Valid()
      ensures controls == Commanded(old(controls), topic, payload) && faults == Faulted(old(faults), topic, payload)
    {
      controls := Commanded(controls, topic, payload);
      faults := Faulted(faults, topic, payload);
    }
  }

  lemma PlantsDiffer(p: Plant, q: Plant, i: nat, j: nat, steps: nat)
    requires p.InStep(i, steps) && q.InStep(j, steps) && i < j < MAX_INSTANCE_COUNT
    ensures p.seed != q.seed
  {
    SeedsNeverCoincide(i, j, 7 * steps);
  }

  // ---------------------------------------------------------------- the simulation

  class Simulation {
    var plants: seq<Plant>
    var selectedInstance: nat
    var speed: real
    ghost var steps: nat

    ghost predicate Valid()
      reads this, plants
    {
      && 1 <= |plants| <= MAX_INSTANCE_COUNT && Distinct(plants)
      && selectedInstance < |plants|
      && forall k | 0 <= k < |plants| :: plants[k].InStep(k, steps)
    }

    /** A count of zero stands for an absent one. */
    constructor (count: int, instanceCount: nat)
      requires 1 <= instanceCount <= MAX_INSTANCE_COUNT
      ensures Valid() && steps == 0 && fresh(plants)
      ensures |plants| == if count == 0 then instanceCount else if count < 1 then 1 else if count > 999 then 999 else count
    {
      var n := if count == 0 then instanceCount else count;
      n := if n < 1 then 1 else if n > MAX_INSTANCE_COUNT then MAX_INSTANCE_COUNT else n;
      selectedInstance, speed, steps := 0, 1.0, 0;
      plants := [];
      new;
      for index := 0 to n
        invariant |plants| == index && Distinct(plants) && fresh(plants)
        invariant forall k | 0 <= k < index :: plants[k].InStep(k, 0)
        invariant selectedInstance == 0 && steps == 0
        modifies `plants
      {
        var plant := new Plant(index);
        plants := plants + [plant];
      }
    }

    method Step(elapsedSeconds: real, sin: real -> real)
      requires Valid()
      modifies this, plants
      ensures Valid() && plants == old(plants) && steps == old(steps) + 1
    {
      var dt := Clamp(if elapsedSeconds == 0.0 then 1.0 else elapsedSeconds, 0.05, 10.0)
        * Clamp(if speed == 0.0 then 1.0 else speed, 0.1, 10.0);
      for k := 0 to |plants|
        invariant plants == old(plants) && steps == old(steps) && selectedInstance == old(selectedInstance)
        invariant forall j | 0 <= j < k :: plants[j].InStep(j, steps + 1)
        invariant forall j | k <= j < |plants| :: plants[j].InStep(j, steps)
        modifies plants
      {
        plants[k].StepPlant(dt, sin);
      }
      steps := steps + 1;
    }

    /** Controls and faults change; no seed does. */
    method ApplyControl(topic: string, payload: Payload)
      requires Valid()
      modifies this, plants
      ensures Valid() && plants == old(plants) && steps == old(steps)
      ensures forall k | 0 <= k < |plants| :: plants[k].seed == old(plants[k].seed)
      ensures forall k | 0 <= k < |plants| && (k != old(selectedInstance) || Steers(topic)) ::
        plants[k].controls == old(plants[k].controls) && plants[k].faults == old(plants[k].faults)
      ensures topic != "speed" || !payload.finite ==> speed == old(speed)
      ensures topic == "speed" && payload.finite ==> Nearest(speed, payload.number, 0.1, 10.0)
      ensures topic !in ["selectedInstance", "selectedTank"] || !payload.finite ==> selectedInstance == old(selectedInstance)
      ensures topic in ["selectedInstance", "selectedTank"] && payload.finite ==>
        && (payload.number < selectedInstance as real + 0.5 || selectedInstance == |plants| - 1)
        && (selectedInstance as real - 0.5 <= payload.number || selectedInstance == 0)
      ensures !Steers(topic) ==>
        && selectedInstance == old(selectedInstance) && speed == old(speed)
        && plants[selectedInstance].controls == Commanded(old(plants[selectedInstance].controls), topic, payload)
        && plants[selectedInstance].faults == Faulted(old(plants[selectedInstance].faults), topic, payload)
    {
      if topic == "selectedInstance" || topic == "selectedTank" {
        if payload.finite {
          var index := (payload.number + 0.5).Floor;
          selectedInstance := if index < 0 then 0 else if index > |plants| - 1 then |plants| - 1 else index;
        }
      } else if topic == "speed" {
        if payload.finite {
          speed := Clamp(payload.number, 0.1, 10.0);
        }
      } else {
        plants[selectedInstance].Control(topic, payload);
      }
    }

    /** No two plants ever share a seed. */
    lemma SeedsAreDistinct()
      requires Valid()
      ensures forall i, j | 0 <= i < j < |plants| :: plants[i].seed != plants[j].seed
    {
      forall i, j | 0 <= i < j < |plants| ensures plants[i].seed != plants[j].seed {
        PlantsDiffer(plants[i], plants[j], i, j, steps);
      }
    }
  }
}
