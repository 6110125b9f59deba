/**
 The retain service's write-behind store (retain/store.go): values in memory, a dirty map waiting to
 be flushed, one batch in flight, and the database. Writers and the flush loop interleave; a flush
 may fail, and a failed commit may or may not have reached the database.
 */
module RetainStore {
  import opened Wrappers

  type Payload = seq<int>

  type Table = map<string, Payload>

  datatype Write = Write(subject: string, payload: Payload)

  /** What happens to a store, in any order the lock allows. */
  datatype Event =
    | Put(subject: string, payload: Payload)
    | FlushStarted
    | FlushCommitted
    | FlushFailed(landed: bool)

  datatype State = State(values: Table, dirty: Table, batch: Option<Table>, db: Table)

  /** Opening loads the database into memory. */
  function Opened(db: Table): State {
    State(db, map[], None, db)
  }

  /** Returning a failed batch: entries written meanwhile are newer and stay. */
  function Requeued(dirty: Table, batch: Table): Table {
    batch + dirty
  }

  function Step(s: State, e: Event): State {
    match e
    case Put(subject, payload) =>
      if subject == "" then s
      else s.(values := s.values[subject := payload], dirty := s.dirty[subject := payload])
    case FlushStarted =>
      if s.batch.Some? || s.dirty == map[] then s
      else s.(batch := Some(s.dirty), dirty := map[])
    case FlushCommitted =>
      if s.batch.None? then s
      else s.(db := s.db + s.batch.value, batch := None)
    case FlushFailed(landed) =>
      if s.batch.None? then s
      else s.(db := if landed then s.db + s.batch.value else s.db,
              dirty := Requeued(s.dirty, s.batch.value), batch := None)
  }

  function Run(s: State, events: seq<Event>): State {
    if events == [] then s else Step(Run(s, events[..|events| - 1]), events[|events| - 1])
  }

  /** The writes among the events. */
  function History(events: seq<Event>): seq<Write> {
    if events == [] then []
    else
      var last := events[|events| - 1];
      Written(History(events[..|events| - 1]), last)
  }

  /** Memory as it was after a list of writes. */
  function Memory(start: Table, writes: seq<Write>): Table {
    if writes == [] then start
    else
      var last := writes[|writes| - 1];
      Memory(start, writes[..|writes| - 1])[last.subject := last.payload]
  }

  lemma MemoryAppends(start: Table, writes: seq<Write>, w: Write)
    ensures Memory(start, writes + [w]) == Memory(start, writes)[w.subject := w.payload]
  {
    assert (writes + [w])[..|writes|] == writes;
  }

  /** The batch in flight as an overlay. */
  function InFlight(s: State): Table {
    match s.batch case None => map[] case Some(b) => b
  }

  /**
   How far the database is: it holds memory after the first `flushed` writes, with the batch in
   flight it would hold the first `cut`, and with the dirty entries all of them.
   */
  ghost predicate Consistent(start: Table, s: State, writes: seq<Write>, flushed: nat, cut: nat) {
    && flushed <= cut <= |writes|
    && s.values == Memory(start, writes)
    && s.db == Memory(start, writes[..flushed])
    && s.db + InFlight(s) == Memory(start, writes[..cut])
    && s.db + InFlight(s) + s.dirty == s.values
  }

  lemma OpenedIsConsistent(start: Table)
    ensures Consistent(start, Opened(start), [], 0, 0)
  {
  }

  lemma OverlayPut(a: Table, b: Table, subject: string, payload: Payload)
    ensures a + b[subject := payload] == (a + b)[subject := payload]
  {
  }

  lemma PutIsConsistent(start: Table, s: State, writes: seq<Write>, flushed: nat, cut: nat, w: Write)
    requires Consistent(start, s, writes, flushed, cut) && w.subject != ""
    ensures Consistent(start, Step(s, Put(w.subject, w.payload)), writes + [w], flushed, cut)
  {
    MemoryAppends(start, writes, w);
    assert (writes + [w])[..flushed] == writes[..flushed] && (writes + [w])[..cut] == writes[..cut];
    OverlayPut(s.db + InFlight(s), s.dirty, w.subject, w.payload);
  }

  lemma StartIsConsistent(start: Table, s: State, writes: seq<Write>, flushed: nat, cut: nat)
    requires Consistent(start, s, writes, flushed, cut) && s.batch.None?
    ensures Consistent(start, Step(s, FlushStarted), writes, flushed, if s.dirty == map[] then cut else |writes|)
  {
    assert writes[..|writes|] == writes;
    assert s.db + map[] == s.db && s.values + map[] == s.values;
  }

  lemma OverlayIsAssociative(a: Table, b: Table, c: Table)
    ensures a + b + c == a + (b + c)
  {
  }

  /** Overlaying what is already there changes nothing, so a batch may be written twice. */
  lemma OverlayTwice(a: Table, b: Table, c: Table)
    ensures a + b + (b + c) == a + b + c
  {
    assert forall k | k in a + b + c :: (a + b + (b + c))[k] == (a + b + c)[k];
  }

  lemma CommitIsConsistent(start: Table, s: State, writes: seq<Write>, flushed: nat, cut: nat)
    requires Consistent(start, s, writes, flushed, cut) && s.batch.Some?
    ensures Consistent(start, Step(s, FlushCommitted), writes, cut, cut)
  {
    var t := Step(s, FlushCommitted);
    assert t.db + map[] == t.db;
  }

  lemma LostFlushIsConsistent(start: Table, s: State, writes: seq<Write>, flushed: nat, cut: nat)
    requires Consistent(start, s, writes, flushed, cut) && s.batch.Some?
    ensures Consistent(start, Step(s, FlushFailed(false)), writes, flushed, flushed)
  {
    var t := Step(s, FlushFailed(false));
    assert t.db + map[] == t.db;
    OverlayIsAssociative(s.db, s.batch.value, s.dirty);
  }

  lemma LandedFlushIsConsistent(start: Table, s: State, writes: seq<Write>, flushed: nat, cut: nat)
    requires Consistent(start, s, writes, flushed, cut) && s.batch.Some?
    ensures Consistent(start, Step(s, FlushFailed(true)), writes, cut, cut)
  {
    var t := Step(s, FlushFailed(true));
    assert t.db + map[] == t.db;
    OverlayTwice(s.db, s.batch.value, s.dirty);
  }

  /** The writes after one more event. */
  function Written(writes: seq<Write>, e: Event): seq<Write> {
    if e.Put? && e.subject != "" then writes + [Write(e.subject, e.payload)] else writes
  }

  /** One event: the prefix the database stands for never shrinks. */
  lemma StepIsConsistent(start: Table, s: State, writes: seq<Write>, flushed: nat, cut: nat, e: Event) returns (flushed': nat, cut': nat)
    requires Consistent(start, s, writes, flushed, cut)
    ensures Consistent(start, Step(s, e), Written(writes, e), flushed', cut') && flushed <= flushed'
  {
    flushed', cut' := flushed, cut;
    if e.Put? {
      if e.subject != "" {
        PutIsConsistent(start, s, writes, flushed, cut, Write(e.subject, e.payload));
      }
    } else if e.FlushStarted? {
      if s.batch.None? && s.dirty != map[] {
        cut' := |writes|;
        StartIsConsistent(start, s, writes, flushed, cut);
      }
    } else if s.batch.Some? {
      if e.FlushCommitted? {
        CommitIsConsistent(start, s, writes, flushed, cut);
        flushed' := cut;
      } else if e.landed {
        LandedFlushIsConsistent(start, s, writes, flushed, cut);
        flushed' := cut;
      } else {
        LostFlushIsConsistent(start, s, writes, flushed, cut);
        cut' := flushed;
      }
    }
  }

  /** The database after a run is memory after the first n writes of the run. */
  ghost predicate StandsFor(start: Table, events: seq<Event>, n: nat) {
    n <= |History(events)| && Run(Opened(start), events).db == Memory(start, History(events)[..n])
  }

  /** The list `flushed` tells, for every prefix of a run, how many writes its database stands for. */
  ghost predicate Witnesses(start: Table, events: seq<Event>, flushed: seq<nat>) {
    && |flushed| == |events| + 1
    && forall i | 0 <= i <= |events| :: StandsFor(start, events[..i], flushed[i])
  }

  ghost predicate Ascending(s: seq<nat>) {
    forall i, j | 0 <= i <= j < |s| :: s[i] <= s[j]
  }

  lemma WitnessesExtend(start: Table, events: seq<Event>, e: Event, flushed: seq<nat>, f: nat)
    requires Witnesses(start, events, flushed) && StandsFor(start, events + [e], f)
    ensures Witnesses(start, events + [e], flushed + [f])
  {
    var more := events + [e];
    forall i | 0 <= i <= |more| ensures StandsFor(start, more[..i], (flushed + [f])[i]) {
      if i <= |events| {
        assert more[..i] == events[..i];
      } else {
        assert more[..i] == more;
      }
    }
  }

  /**
   Crash consistency: after every prefix of every run the database is memory as it was after some
   prefix of the writes, and that prefix never shrinks.
   */
  lemma {:induction false} DatabaseIsAPrefix(start: Table, events: seq<Event>) returns (flushed: seq<nat>, cut: nat)
    ensures Witnesses(start, events, flushed) && Ascending(flushed)
    ensures Consistent(start, Run(Opened(start), events), History(events), flushed[|events|], cut)
  {
    if events == [] {
      flushed, cut := [0], 0;
      OpenedIsConsistent(start);
    } else {
      var n := |events| - 1;
      var before, c := DatabaseIsAPrefix(start, events[..n]);
      var f, c' := StepIsConsistent(start, Run(Opened(start), events[..n]), History(events[..n]), before[n], c, events[n]);
      flushed, cut := before + [f], c';
      assert events[..n] + [events[n]] == events;
      WitnessesExtend(start, events[..n], events[n], before, f);
    }
  }

  /** Nothing is ever lost: database, batch and dirty entries together are memory. */
  lemma OverlaysAreMemory(start: Table, events: seq<Event>)
    ensures var s := Run(Opened(start), events);
      s.values == Memory(start, History(events)) && s.db + InFlight(s) + s.dirty == s.values
  {
    var flushed, cut := DatabaseIsAPrefix(start, events);
  }

  /** The payload last written on a subject, or the one it was opened with. */
  function LastPayload(start: Table, writes: seq<Write>, subject: string): Option<Payload> {
    if writes == [] then Find(start, subject)
    else
      var last := writes[|writes| - 1];
      if last.subject == subject then Some(last.payload) else LastPayload(start, writes[..|writes| - 1], subject)
  }

  lemma {:induction false} MemoryHoldsLastPayloads(start: Table, writes: seq<Write>, subject: string)
    ensures Find(Memory(start, writes), subject) == LastPayload(start, writes, subject)
  {
    if writes != [] {
      MemoryHoldsLastPayloads(start, writes[..|writes| - 1], subject);
    }
  }

  /** Whatever flushes did in between, memory answers with the last write. */
  lemma ValuesAreLastPayloads(start: Table, events: seq<Event>, subject: string)
    ensures Find(Run(Opened(start), events).values, subject) == LastPayload(start, History(events), subject)
  {
    OverlaysAreMemory(start, events);
    MemoryHoldsLastPayloads(start, History(events), subject);
  }

  lemma FlushWritesNothing(events: seq<Event>, e: Event)
    requires !e.Put?
    ensures History(events + [e]) == History(events)
  {
    assert (events + [e])[..|events|] == events;
  }

  lemma RunExtends(s: State, events: seq<Event>, e: Event)
    ensures Run(s, events + [e]) == Step(Run(s, events), e)
  {
    assert (events + [e])[..|events|] == events;
  }

  // ---------------------------------------------------------------- closing

  datatype Outcome = Commits | Fails(landed: bool)

  /** One whole flush with no write in between. */
  function Flushed(s: State, o: Outcome): State {
    var started := Step(s, FlushStarted);
    match o
    case Commits => Step(started, FlushCommitted)
    case Fails(landed) => Step(started, FlushFailed(landed))
  }

  predicate Lands(o: Outcome) {
    o.Commits? || o.landed
  }

  /** A flush without writes moves all of the dirty entries or none. */
  lemma FlushMovesAll(s: State, o: Outcome)
    requires s.batch.None? && s.db + s.dirty == s.values
    ensures var t := Flushed(s, o);
      && t.batch.None? && t.values == s.values && t.db + t.dirty == t.values
      && t.db == if Lands(o) then s.values else s.db
  {
  }

  /**
   Closing runs two flushes: the database ends equal to memory if and only if one of them reached it
   or it already was.
   */
  lemma ClosingFlushes(start: Table, events: seq<Event>, first: Outcome, second: Outcome)
    requires Run(Opened(start), events).batch.None?
    ensures var s := Run(Opened(start), events);
      var closed := Flushed(Flushed(s, first), second);
      closed.db == s.values <==> Lands(first) || Lands(second) || s.db == s.values
  {
    OverlaysAreMemory(start, events);
    var s := Run(Opened(start), events);
    assert s.db + map[] == s.db;
    FlushMovesAll(s, first);
    FlushMovesAll(Flushed(s, first), second);
  }

  // ---------------------------------------------------------------- the store

  /** The entries of a batch outside `rows`. */
  function Without(batch: Table, rows: set<string>): Table {
    map k | k in batch && k !in rows :: batch[k]
  }

  lemma WithoutNone(batch: Table)
    ensures Without(batch, {}) == batch && Without(batch, batch.Keys) == map[]
  {
  }

  lemma OneMoreRow(base: Table, batch: Table, rows: set<string>, subject: string)
    requires subject in rows && rows <= batch.Keys
    ensures Without(batch, rows - {subject}) == Without(batch, rows)[subject := batch[subject]]
    ensures base + Without(batch, rows - {subject}) == (base + Without(batch, rows))[subject := batch[subject]]
  {
  }

  lemma OneMoreReturned(base: Table, batch: Table, rows: set<string>, subject: string)
    requires subject in rows && rows <= batch.Keys
    ensures var done := Without(batch, rows) + base;
      Without(batch, rows - {subject}) + base == if subject in done then done else done[subject := batch[subject]]
  {
  }

  class Store {
    var values: Table
    var dirty: Table
    /** The batch a flush has taken and not yet finished, and the database. */
    var batch: Option<Table>
    var db: Table
    /** The rows at opening, and what happened since. */
    ghost var start: Table
    ghost var events: seq<Event>

    function Snapshot(): State
      reads `values, `dirty, `batch, `db
    {
      State(values, dirty, batch, db)
    }

    ghost predicate Valid()
      reads this
    {
      Snapshot() == Run(Opened(start), events)
    }

    constructor Open(rows: Table)
      ensures Valid() && start == rows && events == []
    {
      db, dirty, batch := rows, map[], None;
      values := map[];
      start, events := rows, [];
      new;
      Load();
    }

    /** Copies every row into memory, in any order. */
    method Load()
      requires values == map[]
      modifies `values
      ensures values == db
    {
      var rows := db.Keys;
      WithoutNone(db);
      while rows != {}
        invariant rows <= db.Keys
        invariant values == Without(db, rows)
      {
        var subject :| subject in rows;
        OneMoreRow(map[], db, rows, subject);
        rows := rows - {subject};
        values := values[subject := db[subject]];
      }
    }

    method PutValue(subject: string, payload: Payload)
      requires Valid()
      modifies `values, `dirty, `events
      ensures Valid() && events == old(events) + [Put(subject, payload)]
    {
      RunExtends(Opened(start), events, Put(subject, payload));
      events := events + [Put(subject, payload)];
      if subject == "" {
        return;
      }
      values := values[subject := payload];
      dirty := dirty[subject := payload];
    }

    /** The payload last written on the subject since opening, however the flushes went, or the row it was opened with. */
    method Get(subject: string) returns (payload: Option<Payload>)
      requires Valid()
      ensures payload == LastPayload(start, History(events), subject)
    {
      ValuesAreLastPayloads(start, events, subject);
      if subject !in values {
        return None;
      }
      payload := Some(values[subject]);
    }

    /** The locked start of a flush: the dirty map becomes the batch. */
    method BeginFlush()
      requires Valid() && batch.None?
      modifies `dirty, `batch, `events
      ensures Valid() && events == old(events) + [FlushStarted]
      ensures old(dirty) == map[] ==> dirty == map[] && batch.None?
    {
      RunExtends(Opened(start), events, FlushStarted);
      events := events + [FlushStarted];
      if |dirty| == 0 {
        return;
      }
      batch := Some(dirty);
      dirty := map[];
    }

    /** The transaction: every row of the batch is replaced, then committed as a whole. */
    method Commit()
      requires Valid() && batch.Some?
      modifies `db, `batch, `events
      ensures Valid() && events == old(events) + [FlushCommitted] && batch.None?
    {
      RunExtends(Opened(start), events, FlushCommitted);
      events := events + [FlushCommitted];
      var rows, transaction := batch.value.Keys, db;
      WithoutNone(batch.value);
      while rows != {}
        invariant rows <= batch.value.Keys
        invariant transaction == db + Without(batch.value, rows)
        modifies {}
      {
        var subject :| subject in rows;
        OneMoreRow(db, batch.value, rows, subject);
        rows := rows - {subject};
        transaction := transaction[subject := batch.value[subject]];
      }
      db := transaction;
      batch := None;
    }

    /** Puts the batch back into the dirty map, keeping newer entries. */
    method Requeue()
      requires batch.Some?
      modifies `dirty, `batch
      ensures dirty == Requeued(old(dirty), old(batch).value) && batch.None?
    {
      var rows := batch.value.Keys;
      WithoutNone(batch.value);
      while rows != {}
        invariant batch == old(batch) && rows <= batch.value.Keys
        invariant dirty == Without(batch.value, rows) + old(dirty)
      {
        var subject :| subject in rows;
        OneMoreReturned(old(dirty), batch.value, rows, subject);
        rows := rows - {subject};
        if subject in dirty {
          continue;
        }
        dirty := dirty[subject := batch.value[subject]];
      }
      batch := None;
    }

    /** A failed flush, whose transaction may have reached the database all the same. */
    method Fail(landed: bool)
      requires Valid() && batch.Some?
      modifies `db, `dirty, `batch, `events
      ensures Valid() && events == old(events) + [FlushFailed(landed)] && batch.None?
    {
      RunExtends(Opened(start), events, FlushFailed(landed));
      events := events + [FlushFailed(landed)];
      if landed {
        db := db + batch.value;
      }
      Requeue();
    }

    /** One whole flush; the outcome is the database's. */
    method FlushDirty(outcome: Outcome)
      requires Valid() && batch.None?
      modifies `db, `dirty, `batch, `events
      ensures Valid() && batch.None? && Snapshot() == Flushed(old(Snapshot()), outcome)
      ensures History(events) == History(old(events))
    {
      FlushWritesNothing(events, FlushStarted);
      BeginFlush();
      if batch.None? {
        return;
      }
      if outcome.Commits? {
        FlushWritesNothing(events, FlushCommitted);
        Commit();
      } else {
        FlushWritesNothing(events, FlushFailed(outcome.landed));
        Fail(outcome.landed);
      }
    }

    /** The closing branch of the flush loop: the database ends equal to memory unless both flushes missed it. */
    method CloseFlushes(first: Outcome, second: Outcome)
      requires Valid() && batch.None?
      modifies `db, `dirty, `batch, `events
      ensures Valid() && History(events) == History(old(events))
      ensures db == values <==> Lands(first) || Lands(second) || old(db) == old(values)
    {
      ClosingFlushes(start, events, first, second);
      FlushDirty(first);
      FlushDirty(second);
    }
  }
}
