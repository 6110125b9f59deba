/**
 Packing points into Modbus requests (modbus/group.go). The protocol limits are those of sections
 6.1 to 6.4 of the MODBUS Application Protocol Specification V1.1b3.
 */
module ModbusGroup {
  import opened Sequences
  import opened ModbusConfig

  const MAX_REGISTER_QUANTITY: Word16 := 125
  const MAX_BIT_QUANTITY: Word16 := 2000

  datatype PollPoint = PollPoint(subject: string, point: Point, publishOnChange: bool)

  datatype PollGroup = PollGroup(register: Register, address: Word16, quantity: Word16, points: seq<PollPoint>)

  function Start(p: PollPoint): nat {
    p.point.address
  }

  function End(p: PollPoint): nat {
    p.point.address + RegisterCount(p.point.encoding)
  }

  function MaxQuantity(register: Register): Word16 {
    if register.HoldsBits() then MAX_BIT_QUANTITY else MAX_REGISTER_QUANTITY
  }

  // ---------------------------------------------------------------- sorting

  predicate StringLess(a: string, b: string) {
    if b == [] then false
    else if a == [] then true
    else a[0] < b[0] || (a[0] == b[0] && StringLess(a[1..], b[1..]))
  }

  /** The comparison handed to the library sort. */
  predicate Before(p: PollPoint, q: PollPoint) {
    if Start(p) != Start(q) then Start(p) < Start(q)
    else if End(p) != End(q) then End(p) < End(q)
    else StringLess(p.subject, q.subject)
  }

  predicate InOrderAt(points: seq<PollPoint>, i: nat)
    requires i + 1 < |points|
  {
    Start(points[i]) <= Start(points[i + 1])
  }

  predicate ByAddress(points: seq<PollPoint>) {
    forall i | 0 <= i < |points| - 1 :: InOrderAt(points, i)
  }

  lemma {:induction false} AddressesAscend(points: seq<PollPoint>, i: nat, j: nat)
    requires ByAddress(points) && i <= j < |points|
    ensures Start(points[i]) <= Start(points[j])
  {
    if i < j {
      AddressesAscend(points, i, j - 1);
      assert InOrderAt(points, j - 1);
    }
  }

  lemma TailInOrder(points: seq<PollPoint>)
    requires points != [] && ByAddress(points)
    ensures ByAddress(points[1..])
  {
    forall i | 0 <= i < |points[1..]| - 1 ensures InOrderAt(points[1..], i) {
      assert InOrderAt(points, i + 1);
    }
  }

  lemma HeadInOrder(p: PollPoint, points: seq<PollPoint>)
    requires ByAddress(points) && (points != [] ==> Start(p) <= Start(points[0]))
    ensures ByAddress([p] + points)
  {
    forall i | 0 <= i < |points| ensures InOrderAt([p] + points, i) {
      assert i > 0 ==> InOrderAt(points, i - 1);
    }
  }

  function Insert(p: PollPoint, points: seq<PollPoint>): (r: seq<PollPoint>)
    requires ByAddress(points)
    ensures ByAddress(r) && multiset(r) == multiset(points) + multiset{p}
    ensures r != [] && (r[0] == p || (points != [] && r[0] == points[0]))
  {
    if points == [] || !Before(points[0], p) then
      HeadInOrder(p, points);
      [p] + points
    else
      assert points == [points[0]] + points[1..];
      assert |points| > 1 ==> InOrderAt(points, 0);
      assert ByAddress(points[1..]) by { TailInOrder(points); }
      HeadInOrder(points[0], Insert(p, points[1..]));
      [points[0]] + Insert(p, points[1..])
  }

  /** Stands for the library sort; only the order by address matters below. */
  function Sort(points: seq<PollPoint>): (r: seq<PollPoint>)
    ensures ByAddress(r) && multiset(r) == multiset(points)
  {
    if points == [] then []
    else
      assert points == [points[0]] + points[1..];
      Insert(points[0], Sort(points[1..]))
  }

  // ---------------------------------------------------------------- what a good packing is

  /** One request for exactly the span of its points, from one table and within the protocol limit. */
  ghost predicate ValidGroup(g: PollGroup) {
    && g.points != [] && g.address == Start(g.points[0])
    && (forall p <- g.points :: p.point.register == g.register && g.address <= Start(p) && End(p) <= g.address + g.quantity)
    && (exists p <- g.points :: End(p) == g.address + g.quantity)
    && g.quantity <= MaxQuantity(g.register)
  }

  function Flatten(groups: seq<PollGroup>): seq<PollPoint> {
    if groups == [] then [] else Flatten(groups[..|groups| - 1]) + groups[|groups| - 1].points
  }

  /** Points that one request can serve. */
  predicate FitsOneRequest(block: seq<PollPoint>) {
    forall p, q | p in block && q in block ::
      p.point.register == q.point.register && End(p) - Start(q) <= MaxQuantity(p.point.register)
  }

  /** Any way at all to serve all the points. */
  ghost predicate Serves(plan: seq<seq<PollPoint>>, points: seq<PollPoint>) {
    && (forall block <- plan :: FitsOneRequest(block))
    && (forall p <- points :: exists i | 0 <= i < |plan| :: p in plan[i])
  }

  /** No request serves two openers, so no plan has fewer requests than there are groups. */
  ghost predicate OpenersAreApart(groups: seq<PollGroup>) {
    && (forall g <- groups :: g.points != [])
    && forall i, j | 0 <= i < j < |groups| :: Apart(groups[i].points[0], groups[j].points[0])
  }

  predicate Apart(p: PollPoint, q: PollPoint) {
    p.point.register != q.point.register || End(q) - Start(p) > MaxQuantity(p.point.register)
  }

  lemma FlattenAppends(groups: seq<PollGroup>, g: PollGroup)
    ensures Flatten(groups + [g]) == Flatten(groups) + g.points
  {
    assert (groups + [g])[..|groups|] == groups;
  }

  lemma {:induction false} FlattenConcatenates(a: seq<PollGroup>, b: seq<PollGroup>)
    ensures Flatten(a + b) == Flatten(a) + Flatten(b)
  {
    if b == [] {
      assert a + b == a;
    } else {
      var front, last := b[..|b| - 1], b[|b| - 1];
      assert a + b == (a + front) + [last] && b == front + [last];
      FlattenAppends(a + front, last);
      FlattenConcatenates(a, front);
    }
  }

  lemma {:induction false} OpenersAreServed(groups: seq<PollGroup>, i: nat)
    requires i < |groups| && groups[i].points != []
    ensures groups[i].points[0] in Flatten(groups)
  {
    if i < |groups| - 1 {
      OpenersAreServed(groups[..|groups| - 1], i);
    }
  }

  /** Pigeonhole: an injective assignment of things to blocks needs as many blocks. */
  lemma Pigeonhole(choice: seq<nat>, bound: nat)
    requires Distinct(choice) && forall a <- choice :: a < bound
    ensures |choice| <= bound
  {
    DistinctLength(choice, Elements(choice));
    BoundedSet(Elements(choice), bound);
  }

  lemma {:induction false} BoundedSet(s: set<nat>, bound: nat)
    requires forall a <- s :: a < bound
    ensures |s| <= bound
  {
    if bound == 0 {
      assert s == {};
    } else {
      BoundedSet(s - {bound - 1}, bound - 1);
    }
  }

  ghost function BlockOf(plan: seq<seq<PollPoint>>, p: PollPoint): (b: nat)
    requires exists i | 0 <= i < |plan| :: p in plan[i]
    ensures b < |plan| && p in plan[b]
  {
    var b :| 0 <= b < |plan| && p in plan[b];
    b
  }

  lemma ApartNeedsTwoBlocks(block: seq<PollPoint>, p: PollPoint, q: PollPoint)
    requires FitsOneRequest(block) && p in block && Apart(p, q)
    ensures q !in block
  {
  }

  /** With openers apart, no plan whatsoever has fewer requests. */
  lemma PackingIsMinimal(groups: seq<PollGroup>, plan: seq<seq<PollPoint>>)
    requires OpenersAreApart(groups) && Serves(plan, Flatten(groups))
    ensures |groups| <= |plan|
  {
    forall i | 0 <= i < |groups| ensures groups[i].points != [] && exists b | 0 <= b < |plan| :: groups[i].points[0] in plan[b] {
      assert groups[i] in groups;
      OpenersAreServed(groups, i);
    }
    var choice := seq(|groups|, i requires 0 <= i < |groups| => BlockOf(plan, groups[i].points[0]));
    forall i, j | 0 <= i < j < |groups| ensures choice[i] != choice[j] {
      ApartNeedsTwoBlocks(plan[choice[i]], groups[i].points[0], groups[j].points[0]);
    }
    Pigeonhole(choice, |plan|);
  }

  // ---------------------------------------------------------------- the greedy merge

  /** How the groups so far relate: each opener lies beyond the reach of the opener before it. */
  ghost predicate Chained(groups: seq<PollGroup>, register: Register) {
    && (forall g <- groups :: ValidGroup(g) && g.register == register)
    && forall i | 0 <= i < |groups| - 1 :: BeyondReachAt(groups, i)
  }

  ghost predicate BeyondReachAt(groups: seq<PollGroup>, i: nat)
    requires i + 1 < |groups|
  {
    groups[i].points != [] && groups[i + 1].points != [] && BeyondReach(groups[i], groups[i + 1])
  }

  ghost predicate BeyondReach(g: PollGroup, h: PollGroup)
    requires g.points != [] && h.points != []
  {
    g.address <= h.address && End(h.points[0]) - g.address > MaxQuantity(g.register)
  }

  lemma {:induction false} ChainAscends(groups: seq<PollGroup>, register: Register, i: nat, j: nat)
    requires Chained(groups, register) && i <= j < |groups|
    ensures groups[i].address <= groups[j].address
  {
    if i < j {
      ChainAscends(groups, register, i, j - 1);
      assert BeyondReachAt(groups, j - 1);
    }
  }

  lemma ChainedOpenersAreApart(groups: seq<PollGroup>, register: Register)
    requires Chained(groups, register)
    ensures OpenersAreApart(groups)
  {
    forall i, j | 0 <= i < j < |groups| ensures Apart(groups[i].points[0], groups[j].points[0]) {
      ChainAscends(groups, register, i, j - 1);
      assert BeyondReachAt(groups, j - 1);
      assert groups[i] in groups && groups[j - 1] in groups && groups[j] in groups;
    }
  }

  lemma AppendToChain(groups: seq<PollGroup>, g: PollGroup, register: Register)
    requires Chained(groups, register) && ValidGroup(g) && g.register == register
    requires groups != [] ==> ValidGroup(groups[|groups| - 1]) && BeyondReach(groups[|groups| - 1], g)
    ensures Chained(groups + [g], register)
  {
    var all := groups + [g];
    forall i | 0 <= i < |all| - 1 ensures BeyondReachAt(all, i) {
      if i < |groups| - 1 {
        assert BeyondReachAt(groups, i);
      }
    }
  }

  lemma LastOfChain(groups: seq<PollGroup>, g: PollGroup, register: Register)
    requires Chained(groups + [g], register)
    ensures Chained(groups, register) && ValidGroup(g) && g.register == register
    ensures groups != [] ==> ValidGroup(groups[|groups| - 1]) && BeyondReach(groups[|groups| - 1], g)
  {
    var all := groups + [g];
    assert all[|groups|] == g;
    forall g | g in groups ensures ValidGroup(g) && g.register == register {
      assert g in all;
    }
    forall i | 0 <= i < |groups| - 1 ensures BeyondReachAt(groups, i) {
      assert BeyondReachAt(all, i);
    }
    if groups != [] {
      assert BeyondReachAt(all, |groups| - 1);
    }
  }

  /** Opening a group with one point. */
  function Opened(register: Register, p: PollPoint): PollGroup {
    PollGroup(register, p.point.address, End(p) - Start(p), [p])
  }

  lemma OpenedIsValid(register: Register, p: PollPoint)
    requires p.point.register == register
    ensures ValidGroup(Opened(register, p))
  {
    assert p in Opened(register, p).points;
  }

  /** The first n points are packed, the last group still open. */
  ghost predicate Packed(groups: seq<PollGroup>, current: PollGroup, register: Register, sorted: seq<PollPoint>, n: nat) {
    n <= |sorted| && Chained(groups + [current], register) && Flatten(groups + [current]) == sorted[..n]
  }

  lemma PackedAscends(groups: seq<PollGroup>, current: PollGroup, register: Register, sorted: seq<PollPoint>, n: nat)
    requires ByAddress(sorted) && n < |sorted| && Packed(groups, current, register, sorted, n)
    ensures ValidGroup(current) && current.register == register && current.address <= Start(sorted[n])
  {
    LastOfChain(groups, current, register);
    FlattenAppends(groups, current);
    var k := |Flatten(groups)|;
    assert sorted[..n][k] == current.points[0];
    AddressesAscend(sorted, k, n);
  }

  /** Where the open group would end with one more point. */
  function EndWith(current: PollGroup, p: PollPoint): nat {
    if current.address + current.quantity > End(p) then current.address + current.quantity else End(p)
  }

  function Merged(current: PollGroup, p: PollPoint): PollGroup
    requires 0 <= EndWith(current, p) - current.address < 0x1_0000
  {
    current.(quantity := EndWith(current, p) - current.address, points := current.points + [p])
  }

  lemma MergedIsValid(current: PollGroup, p: PollPoint)
    requires ValidGroup(current) && p.point.register == current.register && current.address <= Start(p)
    requires 0 <= EndWith(current, p) - current.address <= MaxQuantity(current.register)
    ensures ValidGroup(Merged(current, p))
  {
    var e :| e in current.points && End(e) == current.address + current.quantity;
    assert e in Merged(current, p).points && p in Merged(current, p).points;
  }

  lemma MergePacks(groups: seq<PollGroup>, current: PollGroup, register: Register, sorted: seq<PollPoint>, n: nat)
    requires ByAddress(sorted) && n < |sorted| && Packed(groups, current, register, sorted, n)
    requires sorted[n].point.register == register && 0 <= EndWith(current, sorted[n]) - current.address <= MaxQuantity(register)
    ensures Packed(groups, Merged(current, sorted[n]), register, sorted, n + 1)
  {
    var p, merged := sorted[n], Merged(current, sorted[n]);
    PackedAscends(groups, current, register, sorted, n);
    LastOfChain(groups, current, register);
    MergedIsValid(current, p);
    AppendToChain(groups, merged, register);
    FlattenAppends(groups, current);
    FlattenAppends(groups, merged);
    assert sorted[..n + 1] == sorted[..n] + [p];
  }

  lemma OpenPacks(groups: seq<PollGroup>, current: PollGroup, register: Register, sorted: seq<PollPoint>, n: nat)
    requires ByAddress(sorted) && n < |sorted| && Packed(groups, current, register, sorted, n)
    requires sorted[n].point.register == register && EndWith(current, sorted[n]) - current.address > MaxQuantity(register)
    ensures Packed(groups + [current], Opened(register, sorted[n]), register, sorted, n + 1)
  {
    var p := sorted[n];
    PackedAscends(groups, current, register, sorted, n);
    OpenedIsValid(register, p);
    AppendToChain(groups + [current], Opened(register, p), register);
    FlattenAppends(groups + [current], Opened(register, p));
    assert sorted[..n + 1] == sorted[..n] + [p];
  }

  /** One round of the loop: the next point joins the open group or opens another. */
  function Pack(groups: seq<PollGroup>, current: PollGroup, register: Register, p: PollPoint): (seq<PollGroup>, PollGroup)
    requires current.address <= Start(p)
  {
    if EndWith(current, p) - current.address <= MaxQuantity(register) then (groups, Merged(current, p))
    else (groups + [current], Opened(register, p))
  }

  lemma PackStep(groups: seq<PollGroup>, current: PollGroup, register: Register, sorted: seq<PollPoint>, n: nat)
    requires ByAddress(sorted) && n < |sorted| && Packed(groups, current, register, sorted, n)
    requires sorted[n].point.register == register
    ensures current.address <= Start(sorted[n])
    ensures var next := Pack(groups, current, register, sorted[n]); Packed(next.0, next.1, register, sorted, n + 1)
  {
    PackedAscends(groups, current, register, sorted, n);
    if EndWith(current, sorted[n]) - current.address <= MaxQuantity(register) {
      MergePacks(groups, current, register, sorted, n);
    } else {
      OpenPacks(groups, current, register, sorted, n);
    }
  }

  lemma PackDone(groups: seq<PollGroup>, current: PollGroup, register: Register, sorted: seq<PollPoint>)
    requires Packed(groups, current, register, sorted, |sorted|)
    ensures Chained(groups + [current], register) && Flatten(groups + [current]) == sorted
  {
    assert sorted[..|sorted|] == sorted;
  }

  lemma PackFirst(register: Register, sorted: seq<PollPoint>)
    requires sorted != [] && sorted[0].point.register == register
    ensures Packed([], Opened(register, sorted[0]), register, sorted, 1)
  {
    OpenedAlone(register, sorted[0]);
    assert sorted[..1] == [sorted[0]];
  }

  lemma OpenedAlone(register: Register, p: PollPoint)
    requires p.point.register == register
    ensures Chained([] + [Opened(register, p)], register) && Flatten([] + [Opened(register, p)]) == [p]
  {
    OpenedIsValid(register, p);
    AppendToChain([], Opened(register, p), register);
    FlattenAppends([], Opened(register, p));
  }

  lemma SortKeepsTable(points: seq<PollPoint>, register: Register)
    requires forall p <- points :: p.point.register == register
    ensures forall p <- Sort(points) :: p.point.register == register
  {
    forall p | p in Sort(points) ensures p.point.register == register {
      assert p in multiset(Sort(points));
    }
  }

  /** Sorts one table's points and merges them. */
  method MergeRegisterPoints(register: Register, points: seq<PollPoint>) returns (groups: seq<PollGroup>)
    requires forall p <- points :: p.point.register == register
    ensures Chained(groups, register)
    ensures Flatten(groups) == Sort(points)
  {
    SortKeepsTable(points, register);
    groups := MergeSorted(register, Sort(points));
  }

  /** Merges points in address order while the span stays within the limit. */
  method MergeSorted(register: Register, sorted: seq<PollPoint>) returns (groups: seq<PollGroup>)
    requires ByAddress(sorted) && forall p <- sorted :: p.point.register == register
    ensures Chained(groups, register)
    ensures Flatten(groups) == sorted
  {
    var limit: nat := MaxQuantity(register);
    groups := [];
    if sorted == [] {
      return;
    }
    var current := Opened(register, sorted[0]);
    PackFirst(register, sorted);
    var i := 1;
    while i < |sorted|
      invariant 1 <= i <= |sorted|
      invariant Packed(groups, current, register, sorted, i)
    {
      var point := sorted[i];
      PackStep(groups, current, register, sorted, i);
      ghost var next := Pack(groups, current, register, point);
      var currentEnd := current.address + current.quantity;
      var nextEnd := End(point);
      if currentEnd > nextEnd {
        nextEnd := currentEnd;
      }
      var span := nextEnd - current.address;
      if span <= limit {
        current := current.(quantity := span, points := current.points + [point]);
      } else {
        groups := groups + [current];
        current := Opened(register, point);
      }
      assert (groups, current) == next;
      i := i + 1;
    }
    PackDone(groups, current, register, sorted);
    groups := groups + [current];
  }

  // ---------------------------------------------------------------- all tables

  function OfRegister(points: seq<PollPoint>, register: Register): (r: seq<PollPoint>)
    ensures forall p <- r :: p.point.register == register
  {
    if points == [] then []
    else
      var last := points[|points| - 1];
      OfRegister(points[..|points| - 1], register) + if last.point.register == register then [last] else []
  }

  const TABLES := [Coil, DiscreteInput, Holding, Input]

  /** The position of a table in the order of names. */
  function TableIndex(register: Register): (n: nat)
    ensures n < 4 && TABLES[n] == register
  {
    match register
    case Coil => 0
    case DiscreteInput => 1
    case Holding => 2
    case Input => 3
  }

  /** The points of the first n tables, as a multiset. */
  function OfTables(points: seq<PollPoint>, n: nat): multiset<PollPoint>
    requires n <= 4
  {
    if n == 0 then multiset{} else OfTables(points, n - 1) + multiset(OfRegister(points, TABLES[n - 1]))
  }

  lemma TablesUnfold(points: seq<PollPoint>)
    ensures OfTables(points, 4) == multiset(OfRegister(points, Coil)) + multiset(OfRegister(points, DiscreteInput))
      + multiset(OfRegister(points, Holding)) + multiset(OfRegister(points, Input))
  {
    assert OfTables(points, 1) == multiset(OfRegister(points, Coil));
    assert OfTables(points, 2) == OfTables(points, 1) + multiset(OfRegister(points, DiscreteInput));
    assert OfTables(points, 3) == OfTables(points, 2) + multiset(OfRegister(points, Holding));
  }

  lemma {:induction false} TablesPartition(points: seq<PollPoint>)
    ensures OfTables(points, 4) == multiset(points)
  {
    if points != [] {
      var front, last := points[..|points| - 1], points[|points| - 1];
      TablesPartition(front);
      assert points == front + [last];
      OneMorePoint(points, front, last);
    } else {
      TablesUnfold(points);
    }
  }

  lemma OneMorePoint(points: seq<PollPoint>, front: seq<PollPoint>, last: PollPoint)
    requires points != [] && front == points[..|points| - 1] && last == points[|points| - 1]
    ensures OfTables(points, 4) == OfTables(front, 4) + multiset{last}
  {
    TablesUnfold(front);
    TablesUnfold(points);
    forall r: Register
      ensures multiset(OfRegister(points, r)) == multiset(OfRegister(front, r)) + if last.point.register == r then multiset{last} else multiset{}
    {
    }
  }

  /** Openers stay apart when the groups of another table are added. */
  lemma TablesAreApart(a: seq<PollGroup>, b: seq<PollGroup>, register: Register)
    requires OpenersAreApart(a) && Chained(b, register)
    requires forall g <- a :: ValidGroup(g) && g.register != register
    ensures OpenersAreApart(a + b)
  {
    ChainedOpenersAreApart(b, register);
    var all := a + b;
    forall i, j | 0 <= i < j < |all| ensures Apart(all[i].points[0], all[j].points[0]) {
      assert all[i] in all && all[j] in all;
      if i < |a| <= j {
        assert all[i] in a && all[j] in b;
        assert all[i].points[0] in all[i].points && all[j].points[0] in all[j].points;
      } else if j < |a| {
        assert Apart(a[i].points[0], a[j].points[0]);
      } else {
        assert Apart(b[i - |a|].points[0], b[j - |a|].points[0]);
      }
    }
  }

  /** The map from tables to their points, and the loop over its keys in order. */
  method PartitionPoints(points: seq<PollPoint>) returns (byRegister: map<Register, seq<PollPoint>>)
    ensures forall r :: r in byRegister <==> OfRegister(points, r) != []
    ensures forall r :: r in byRegister ==> byRegister[r] == OfRegister(points, r)
  {
    byRegister := map[];
    for i := 0 to |points|
      invariant forall r :: r in byRegister <==> OfRegister(points[..i], r) != []
      invariant forall r :: r in byRegister ==> byRegister[r] == OfRegister(points[..i], r)
    {
      assert points[..i + 1][..i] == points[..i];
      var register := points[i].point.register;
      var existing := if register in byRegister then byRegister[register] else [];
      byRegister := byRegister[register := existing + [points[i]]];
    }
    assert points[..|points|] == points;
  }

  /** The first n tables are packed. */
  ghost predicate TablesPacked(groups: seq<PollGroup>, points: seq<PollPoint>, n: nat)
    requires n <= 4
  {
    && (forall g <- groups :: ValidGroup(g) && TableIndex(g.register) < n)
    && multiset(Flatten(groups)) == OfTables(points, n)
    && OpenersAreApart(groups)
  }

  lemma TablePacks(groups: seq<PollGroup>, merged: seq<PollGroup>, points: seq<PollPoint>, n: nat)
    requires n < 4 && TablesPacked(groups, points, n)
    requires Chained(merged, TABLES[n]) && multiset(Flatten(merged)) == multiset(OfRegister(points, TABLES[n]))
    ensures TablesPacked(groups + merged, points, n + 1)
  {
    assert TableIndex(TABLES[n]) == n;
    TablesAreApart(groups, merged, TABLES[n]);
    FlattenConcatenates(groups, merged);
  }

  // ---------------------------------------------------------------- requests on the wire

  /** A read request; the address is not bounded here, so it is any request at all. */
  datatype Request = Request(register: Register, address: int, quantity: nat)

  /** The data bytes of the answer: a register takes two, eight bits share one. */
  function AnswerBytes(r: Request): nat {
    match r.register
    case Coil => (r.quantity + 7) / 8
    case DiscreteInput => (r.quantity + 7) / 8
    case Holding => 2 * r.quantity
    case Input => 2 * r.quantity
  }

  const MAX_ANSWER_BYTES := 250

  predicate Allowed(r: Request) {
    AnswerBytes(r) <= MAX_ANSWER_BYTES
  }

  /** The answer holds the whole of the point. */
  predicate Reads(r: Request, p: PollPoint) {
    r.register == p.point.register && r.address <= Start(p) && End(p) <= r.address + r.quantity
  }

  /** Any allowed requests that together read all the points. */
  ghost predicate ReadsAll(requests: seq<Request>, points: seq<PollPoint>) {
    && (forall r <- requests :: Allowed(r))
    && (forall p <- points :: exists i | 0 <= i < |requests| :: Reads(requests[i], p))
  }

  function RequestFor(g: PollGroup): Request {
    Request(g.register, g.address, g.quantity)
  }

  lemma LimitIsTheByteLimit(r: Request)
    ensures Allowed(r) <==> r.quantity <= MaxQuantity(r.register)
  {
  }

  function ReadBy(r: Request, points: seq<PollPoint>): (block: seq<PollPoint>)
    ensures forall p :: p in block <==> p in points && Reads(r, p)
  {
    if points == [] then []
    else
      var last := points[|points| - 1];
      assert points == points[..|points| - 1] + [last];
      ReadBy(r, points[..|points| - 1]) + if Reads(r, last) then [last] else []
  }

  lemma OneRequestServes(r: Request, points: seq<PollPoint>)
    requires Allowed(r)
    ensures FitsOneRequest(ReadBy(r, points))
  {
    LimitIsTheByteLimit(r);
  }

  /** Requests that read everything are a plan that serves everything. */
  lemma RequestsServe(requests: seq<Request>, points: seq<PollPoint>) returns (plan: seq<seq<PollPoint>>)
    requires ReadsAll(requests, points)
    ensures Serves(plan, points) && |plan| == |requests|
  {
    plan := seq(|requests|, i requires 0 <= i < |requests| => ReadBy(requests[i], points));
    forall block | block in plan ensures FitsOneRequest(block) {
      var i :| 0 <= i < |plan| && plan[i] == block;
      OneRequestServes(requests[i], points);
    }
    forall p | p in points ensures exists i | 0 <= i < |plan| :: p in plan[i] {
      var i :| 0 <= i < |requests| && Reads(requests[i], p);
      assert p in plan[i];
    }
  }

  /** A valid group is an allowed request that reads its points. */
  lemma GroupIsRequest(g: PollGroup)
    requires ValidGroup(g)
    ensures Allowed(RequestFor(g)) && forall p <- g.points :: Reads(RequestFor(g), p)
  {
    LimitIsTheByteLimit(RequestFor(g));
  }

  /**
   All points of a connection packed into requests: every point in exactly one group, every group one
   valid request within the limits of the protocol, and no allowed requests that read all the points
   are fewer.
   */
  method GroupPoints(points: seq<PollPoint>) returns (groups: seq<PollGroup>)
    ensures forall g <- groups :: ValidGroup(g)
    ensures forall g <- groups :: Allowed(RequestFor(g)) && forall p <- g.points :: Reads(RequestFor(g), p)
    ensures multiset(Flatten(groups)) == multiset(points)
    ensures forall plan | Serves(plan, points) :: |groups| <= |plan|
    ensures forall requests | ReadsAll(requests, points) :: |groups| <= |requests|
  {
    groups := [];
    if points == [] {
      return;
    }
    var byRegister := PartitionPoints(points);
    for i := 0 to 4
      invariant TablesPacked(groups, points, i)
    {
      var merged := [];
      if TABLES[i] in byRegister {
        merged := MergeRegisterPoints(TABLES[i], byRegister[TABLES[i]]);
      }
      TablePacks(groups, merged, points, i);
      groups := groups + merged;
    }
    TablesPartition(points);
    NoPlanIsSmaller(groups, points);
    forall g | g in groups ensures Allowed(RequestFor(g)) && forall p <- g.points :: Reads(RequestFor(g), p) {
      GroupIsRequest(g);
    }
    forall requests | ReadsAll(requests, points) ensures |groups| <= |requests| {
      var plan := RequestsServe(requests, points);
    }
  }

  lemma NoPlanIsSmaller(groups: seq<PollGroup>, points: seq<PollPoint>)
    requires OpenersAreApart(groups) && multiset(Flatten(groups)) == multiset(points)
    ensures forall plan | Serves(plan, points) :: |groups| <= |plan|
  {
    forall p | p in Flatten(groups) ensures p in points {
      assert p in multiset(Flatten(groups));
    }
    forall plan | Serves(plan, points) ensures |groups| <= |plan| {
      PackingIsMinimal(groups, plan);
    }
  }
}
