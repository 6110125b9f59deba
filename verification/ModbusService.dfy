/**
 The Modbus service's bookkeeping (modbus/service.go): connections and points as last configured, and
 one polling worker per usable connection, kept up to date one update at a time.
 */
module ModbusService {
  import opened Wrappers
  import opened ModbusConfig
  import opened ModbusGroup

  const ADDRESS_SUFFIX := ".address"

  datatype Connection = Connection(
    url: string, unitId: nat, byteOrder: ByteOrder, wordOrder: ByteOrder, timeout: nat, pollInterval: nat)

  /** A connection message after decoding and validation. */
  datatype ConnectionMessage = BadDescriptor | OtherDriver | ConnectionDisabled | BadSettings | Usable(connection: Connection)

  /** An enabled Modbus address; its driver configuration is checked against the connection later. */
  datatype Address = Address(connection: string, publishOnChange: bool, descriptor: Descriptor)

  datatype AddressMessage = BadAddress | NotForModbus | AddressDisabled | Valid(address: Address)

  /** How raw messages decode; the same text always decodes the same way. */
  datatype Codec = Codec(connection: string -> ConnectionMessage, address: string -> AddressMessage)

  datatype ConnectionDefinition = ConnectionDefinition(raw: string, connection: Connection)

  datatype PointDefinition = PointDefinition(raw: string, address: Address)

  /** What is configured. */
  datatype Settings = Settings(connections: map<string, ConnectionDefinition>, points: map<string, PointDefinition>)

  /** What a worker polls: its own copy of the connection and the points. */
  datatype Snapshot = Snapshot(connection: Connection, points: map<string, PollPoint>)

  function TargetSubject(subject: string): Option<string> {
    if |subject| <= |ADDRESS_SUFFIX| || subject[|subject| - |ADDRESS_SUFFIX|..] != ADDRESS_SUFFIX then None
    else Some(subject[..|subject| - |ADDRESS_SUFFIX|])
  }

  /** A point of the connection that can be polled through it. */
  function PointOn(subject: string, definition: PointDefinition, connectionSubject: string, connection: Connection): Option<PollPoint> {
    if definition.address.connection != connectionSubject then None
    else
      match ParsePoint(definition.address.descriptor, connection.byteOrder, connection.wordOrder)
      case Err(_) => None
      case Ok(point) =>
        match TargetSubject(subject)
        case None => None
        case Some(target) => Some(PollPoint(target, point, definition.address.publishOnChange))
  }

  function ConnectionPoints(points: map<string, PointDefinition>, connectionSubject: string, connection: Connection): map<string, PollPoint> {
    map s | s in points && PointOn(s, points[s], connectionSubject, connection).Some? ::
      PointOn(s, points[s], connectionSubject, connection).value
  }

  /** The worker a connection should have, computed from scratch. */
  function Wanted(settings: Settings, subject: string): Option<Snapshot> {
    if subject !in settings.connections then None
    else
      var connection := settings.connections[subject].connection;
      var points := ConnectionPoints(settings.points, subject, connection);
      if points == map[] then None else Some(Snapshot(connection, points))
  }

  /**
   A connection's worker polls a point for an address exactly when the address names the connection and
   describes the point, in the connection's orders; it polls it for the subject the address is of.
   */
  lemma WorkerPollsExactly(settings: Settings, connectionSubject: string, s: string, p: PollPoint)
    ensures (Wanted(settings, connectionSubject).Some? && Find(Wanted(settings, connectionSubject).value.points, s) == Some(p))
      <==>
      && connectionSubject in settings.connections && s in settings.points
      && settings.points[s].address.connection == connectionSubject
      && s == p.subject + ADDRESS_SUFFIX && p.subject != ""
      && p.publishOnChange == settings.points[s].address.publishOnChange
      && Pollable(p.point) && settings.points[s].address.descriptor == Described(p.point)
      && p.point.byteOrder == settings.connections[connectionSubject].connection.byteOrder
      && p.point.wordOrder == settings.connections[connectionSubject].connection.wordOrder
    ensures Wanted(settings, connectionSubject).Some? ==>
      && Wanted(settings, connectionSubject).value.connection == settings.connections[connectionSubject].connection
      && Wanted(settings, connectionSubject).value.points != map[]
  {
    if connectionSubject in settings.connections && s in settings.points {
      var connection := settings.connections[connectionSubject].connection;
      PointOnExactly(s, settings.points[s], connectionSubject, connection, p);
      var points := ConnectionPoints(settings.points, connectionSubject, connection);
      assert Find(points, s) == PointOn(s, settings.points[s], connectionSubject, connection);
      assert s in points ==> points != map[];
    }
  }

  lemma TargetIsWithoutSuffix(subject: string, target: string)
    ensures TargetSubject(subject) == Some(target) <==> subject == target + ADDRESS_SUFFIX && target != ""
  {
  }

  lemma PointOnExactly(s: string, definition: PointDefinition, connectionSubject: string, connection: Connection, p: PollPoint)
    ensures PointOn(s, definition, connectionSubject, connection) == Some(p) <==>
      && definition.address.connection == connectionSubject && s == p.subject + ADDRESS_SUFFIX && p.subject != ""
      && p.publishOnChange == definition.address.publishOnChange
      && Pollable(p.point) && definition.address.descriptor == Described(p.point)
      && p.point.byteOrder == connection.byteOrder && p.point.wordOrder == connection.wordOrder
  {
    TargetIsWithoutSuffix(s, p.subject);
    ParsingInvertsDescribing(definition.address.descriptor, connection.byteOrder, connection.wordOrder, p.point);
  }

  function Rebuild(settings: Settings): map<string, Snapshot> {
    map s | s in settings.connections && Wanted(settings, s).Some? :: Wanted(settings, s).value
  }

  // ---------------------------------------------------------------- updates as values

  datatype Update = ConnectionUpdate(subject: string, raw: string) | AddressUpdate(subject: string, raw: string)

  /** The definition a message stands for, if any. */
  function ConnectionIn(codec: Codec, raw: string): Option<ConnectionDefinition> {
    match codec.connection(raw)
    case Usable(c) => Some(ConnectionDefinition(raw, c))
    case _ => None
  }

  function PointIn(codec: Codec, raw: string): Option<PointDefinition> {
    match codec.address(raw)
    case Valid(a) => Some(PointDefinition(raw, a))
    case _ => None
  }

  function Put<T>(m: map<string, T>, key: string, value: Option<T>): map<string, T> {
    match value
    case None => m - {key}
    case Some(v) => m[key := v]
  }

  function Updated(codec: Codec, settings: Settings, update: Update): Settings {
    match update
    case ConnectionUpdate(s, raw) => settings.(connections := Put(settings.connections, s, ConnectionIn(codec, raw)))
    case AddressUpdate(s, raw) => settings.(points := Put(settings.points, s, PointIn(codec, raw)))
  }

  const NOTHING := Settings(map[], map[])

  function After(codec: Codec, updates: seq<Update>): Settings {
    if updates == [] then NOTHING else Updated(codec, After(codec, updates[..|updates| - 1]), updates[|updates| - 1])
  }

  /** The last message on a subject. */
  function LastRaw(updates: seq<Update>, connection: bool, subject: string): Option<string> {
    if updates == [] then None
    else
      var last := updates[|updates| - 1];
      if last.ConnectionUpdate? == connection && last.subject == subject then Some(last.raw)
      else LastRaw(updates[..|updates| - 1], connection, subject)
  }

  /** Only the last message on each subject matters. */
  lemma {:induction false} LastMessageDecides(codec: Codec, updates: seq<Update>, subject: string)
    ensures Find(After(codec, updates).connections, subject)
      == match LastRaw(updates, true, subject) case None => None case Some(raw) => ConnectionIn(codec, raw)
    ensures Find(After(codec, updates).points, subject)
      == match LastRaw(updates, false, subject) case None => None case Some(raw) => PointIn(codec, raw)
  {
    if updates != [] {
      LastMessageDecides(codec, updates[..|updates| - 1], subject);
    }
  }

  lemma SameFindsSameMap<T>(a: map<string, T>, b: map<string, T>)
    requires forall k :: Find(a, k) == Find(b, k)
    ensures a == b
  {
    forall k ensures k in a <==> k in b {
      assert Find(a, k) == Find(b, k);
    }
    forall k | k in a ensures a[k] == b[k] {
      assert Find(a, k) == Find(b, k);
    }
  }

  /** Histories with the same last messages lead to the same workers, whatever came before and in whatever order. */
  lemma WorkersDependOnLastMessages(codec: Codec, a: seq<Update>, b: seq<Update>)
    requires forall c: bool, s :: LastRaw(a, c, s) == LastRaw(b, c, s)
    ensures Rebuild(After(codec, a)) == Rebuild(After(codec, b))
  {
    forall s
      ensures Find(After(codec, a).connections, s) == Find(After(codec, b).connections, s)
      ensures Find(After(codec, a).points, s) == Find(After(codec, b).points, s)
    {
      LastMessageDecides(codec, a, s);
      LastMessageDecides(codec, b, s);
      assert LastRaw(a, true, s) == LastRaw(b, true, s) && LastRaw(a, false, s) == LastRaw(b, false, s);
    }
    SameFindsSameMap(After(codec, a).connections, After(codec, b).connections);
    SameFindsSameMap(After(codec, a).points, After(codec, b).points);
  }

  /** A point update only matters to the connections its old and new definitions name. */
  lemma OtherConnectionsUnaffected(settings: Settings, after: Settings, point: string, connection: string)
    requires after.connections == settings.connections
    requires forall s | s != point :: Find(after.points, s) == Find(settings.points, s)
    requires point in settings.points ==> settings.points[point].address.connection != connection
    requires point in after.points ==> after.points[point].address.connection != connection
    ensures Wanted(after, connection) == Wanted(settings, connection)
  {
    if connection in settings.connections {
      var c := settings.connections[connection].connection;
      var a, b := ConnectionPoints(settings.points, connection, c), ConnectionPoints(after.points, connection, c);
      forall s ensures Find(a, s) == Find(b, s) {
        assert s != point ==> Find(after.points, s) == Find(settings.points, s);
      }
      SameFindsSameMap(a, b);
    }
  }

  // ---------------------------------------------------------------- the service

  /** A running poll loop. */
  datatype Poller = Poller(subject: string, snapshot: Snapshot)

  class Service {
    const codec: Codec
    var started: bool
    var points: map<string, PointDefinition>
    var connections: map<string, ConnectionDefinition>
    /** The poll loop each worker controls, and the poll loops still running. */
    var workers: map<string, nat>
    var pollers: map<nat, Poller>
    var nextPoller: nat

    constructor (codec: Codec)
      ensures Consistent() && !started && Configured() == NOTHING && this.codec == codec
    {
      this.codec := codec;
      started, nextPoller := false, 0;
      points, connections, workers, pollers := map[], map[], map[], map[];
    }

    function Configured(): Settings
      reads `connections, `points
    {
      Settings(connections, points)
    }

    /** At most one poll loop per connection, and every running loop belongs to a worker. */
    ghost predicate OnePollerEach()
      reads `workers, `pollers, `nextPoller
    {
      && (forall s <- workers :: workers[s] in pollers && pollers[workers[s]].subject == s)
      && (forall p <- pollers :: p < nextPoller && pollers[p].subject in workers && workers[pollers[p].subject] == p)
    }

    ghost predicate Decoded()
      reads `connections, `points
    {
      && (forall s <- connections :: Some(connections[s]) == ConnectionIn(codec, connections[s].raw))
      && (forall s <- points :: Some(points[s]) == PointIn(codec, points[s].raw))
    }

    /** What a connection's worker polls. */
    function Polled(subject: string): Option<Snapshot>
      reads `workers, `pollers
    {
      if subject in workers && workers[subject] in pollers then Some(pollers[workers[subject]].snapshot) else None
    }

    /** Every connection's worker is the one a rebuild would start, except for the ones listed. */
    ghost predicate UpToDateExcept(stale: set<string>)
      reads `connections, `points, `workers, `pollers
    {
      forall s | s !in stale :: Polled(s) == Wanted(Configured(), s)
    }

    ghost predicate Consistent()
      reads this
    {
      && OnePollerEach() && Decoded()
      && (if started then UpToDateExcept({}) else workers == map[])
    }

    /** The running workers, as a whole, are the rebuild of the current configuration. */
    lemma WorkersAreTheRebuild()
      requires Consistent() && started
      ensures (map s | s in workers :: pollers[workers[s]].snapshot) == Rebuild(Configured())
    {
      var running := map s | s in workers :: pollers[workers[s]].snapshot;
      var rebuilt := Rebuild(Configured());
      forall s ensures Find(running, s) == Find(rebuilt, s) {
        assert Polled(s) == Wanted(Configured(), s);
      }
      SameFindsSameMap(running, rebuilt);
    }

    /** Cancels the worker's poll loop and waits until it has ended. */
    method StopWorker(subject: string)
      requires OnePollerEach()
      modifies `workers, `pollers
      ensures OnePollerEach() && subject !in workers
      ensures forall s | s != subject :: Polled(s) == old(Polled(s))
      ensures workers.Keys == old(workers).Keys - {subject}
    {
      if subject in workers {
        var current := workers[subject];
        workers := workers - {subject};
        pollers := pollers - {current};
      }
    }

    /** Collects the connection's usable points, in any order. */
    method CollectPoints(subject: string, connection: Connection) returns (found: map<string, PollPoint>)
      ensures found == ConnectionPoints(points, subject, connection)
    {
      found := map[];
      var todo := points.Keys;
      while todo != {}
        invariant todo <= points.Keys
        invariant found == map s | s in points && s !in todo && PointOn(s, points[s], subject, connection).Some? ::
          PointOn(s, points[s], subject, connection).value
      {
        var s :| s in todo;
        todo := todo - {s};
        var definition := points[s];
        if definition.address.connection != subject {
          continue;
        }
        var point := ParsePoint(definition.address.descriptor, connection.byteOrder, connection.wordOrder);
        var target := TargetSubject(s);
        if point.Ok? && target.Some? {
          found := found[s := PollPoint(target.value, point.value, definition.address.publishOnChange)];
        }
      }
    }

    /** Starts the poll loop of a connection that has none. */
    method StartWorker(subject: string, snapshot: Snapshot)
      requires OnePollerEach() && subject !in workers
      modifies `workers, `pollers, `nextPoller
      ensures OnePollerEach() && Polled(subject) == Some(snapshot)
      ensures forall s | s != subject :: Polled(s) == old(Polled(s))
    {
      workers := workers[subject := nextPoller];
      pollers := pollers[nextPoller := Poller(subject, snapshot)];
      nextPoller := nextPoller + 1;
    }

    method RestartConnection(subject: string, ghost stale: set<string>)
      requires OnePollerEach() && UpToDateExcept(stale + {subject})
      modifies `workers, `pollers, `nextPoller
      ensures OnePollerEach() && UpToDateExcept(stale - {subject})
    {
      StopWorker(subject);
      if subject !in connections {
        return;
      }
      var connection := connections[subject].connection;
      var found := CollectPoints(subject, connection);
      if found == map[] {
        return;
      }
      StartWorker(subject, Snapshot(connection, found));
    }

    method InvalidateConnection(subject: string)
      requires Consistent()
      modifies `connections, `workers, `pollers
      ensures Consistent() && connections == old(connections) - {subject}
    {
      connections := connections - {subject};
      StopWorker(subject);
    }

    method ReconcileConnection(subject: string, raw: string)
      requires Consistent()
      modifies `connections, `workers, `pollers, `nextPoller
      ensures Consistent()
      ensures Configured() == Updated(codec, old(Configured()), ConnectionUpdate(subject, raw))
    {
      var message := codec.connection(raw);
      if !message.Usable? {
        InvalidateConnection(subject);
        return;
      }
      if subject in connections && connections[subject].raw == raw {
        return;
      }
      connections := connections[subject := ConnectionDefinition(raw, message.connection)];
      if started {
        RestartConnection(subject, {});
      }
    }

    method RemovePoint(subject: string)
      requires Consistent()
      modifies `points, `workers, `pollers, `nextPoller
      ensures Consistent() && points == old(points) - {subject}
    {
      if subject !in points {
        return;
      }
      ghost var before := Configured();
      var connection := points[subject].address.connection;
      points := points - {subject};
      if started {
        forall s | s != connection ensures Wanted(Configured(), s) == Wanted(before, s) {
          OtherConnectionsUnaffected(before, Configured(), subject, s);
        }
        RestartConnection(connection, {});
      }
    }

    method ReconcileAddress(subject: string, raw: string)
      requires Consistent()
      modifies `points, `workers, `pollers, `nextPoller
      ensures Consistent()
      ensures Configured() == Updated(codec, old(Configured()), AddressUpdate(subject, raw))
    {
      var message := codec.address(raw);
      if !message.Valid? {
        RemovePoint(subject);
        return;
      }
      if subject in points && points[subject].raw == raw {
        return;
      }
      ghost var before := Configured();
      var previous := if subject in points then Some(points[subject].address.connection) else None;
      points := points[subject := PointDefinition(raw, message.address)];
      if !started {
        return;
      }
      forall s | s != message.address.connection && Some(s) != previous ensures Wanted(Configured(), s) == Wanted(before, s) {
        OtherConnectionsUnaffected(before, Configured(), subject, s);
      }
      if previous.Some? && previous.value != message.address.connection {
        RestartConnection(previous.value, {message.address.connection});
      }
      RestartConnection(message.address.connection, {});
    }

    method StartWorkers()
      requires Consistent()
      modifies `started, `workers, `pollers, `nextPoller
      ensures Consistent() && started
    {
      started := true;
      var subjects := connections.Keys;
      while subjects != {}
        invariant OnePollerEach() && Decoded() && started && subjects <= connections.Keys
        invariant UpToDateExcept(subjects)
      {
        var subject :| subject in subjects;
        ghost var left := subjects;
        subjects := subjects - {subject};
        assert left == subjects + {subject};
        RestartConnection(subject, subjects);
        assert subjects - {subject} == subjects;
      }
    }

    method Stop()
      requires Consistent()
      modifies `started, `workers, `pollers
      ensures Consistent() && !started && pollers == map[]
    {
      started := false;
      workers := map[];
      pollers := map[];
    }
  }
}
