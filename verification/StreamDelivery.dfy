/**
 The duplicate and stale filter of a subscription (stream/subscribe.go): per subject it remembers
 the id and the observation time of the last message it let through.
 */
module StreamDelivery {
  import opened Wrappers

  /** Nanoseconds since 1970; the instant that counts as "no time" is the first of January of year 1. */
  type Instant = int

  const ZERO_TIME: Instant := -62135596800_000_000_000

  datatype Message = Message(id: string, observedAt: Option<Instant>)

  datatype Delivered = Delivered(id: string, observed: Instant)

  datatype Arrival = Arrival(subject: string, message: Message)

  type Memory = map<string, Delivered>

  function Observed(m: Message): Instant {
    match m.observedAt case None => ZERO_TIME case Some(t) => t
  }

  predicate Timed(m: Message) {
    Observed(m) != ZERO_TIME
  }

  predicate Accepts(last: Memory, a: Arrival) {
    a.subject !in last
    || (var previous := last[a.subject];
        && !(a.message.id != "" && previous.id == a.message.id)
        && !(previous.observed != ZERO_TIME && Timed(a.message) && Observed(a.message) < previous.observed))
  }

  function Remember(last: Memory, a: Arrival): Memory {
    if Accepts(last, a) then last[a.subject := Delivered(a.message.id, Observed(a.message))] else last
  }

  function After(arrivals: seq<Arrival>): Memory {
    if arrivals == [] then map[] else Remember(After(arrivals[..|arrivals| - 1]), arrivals[|arrivals| - 1])
  }

  /** The messages of one subject, in order of arrival. */
  function Arrived(arrivals: seq<Arrival>, subject: string): seq<Message> {
    if arrivals == [] then []
    else
      var last := arrivals[|arrivals| - 1];
      Arrived(arrivals[..|arrivals| - 1], subject) + if last.subject == subject then [last.message] else []
  }

  /** Those of them that were let through. */
  function Accepted(arrivals: seq<Arrival>, subject: string): seq<Message> {
    if arrivals == [] then []
    else
      var before, last := arrivals[..|arrivals| - 1], arrivals[|arrivals| - 1];
      Accepted(before, subject) + if last.subject == subject && Accepts(After(before), last) then [last.message] else []
  }

  /** Each message carries a time, and an id names one observation. */
  ghost predicate WellStamped(messages: seq<Message>) {
    && (forall m <- messages :: Timed(m))
    && forall m <- messages, n <- messages :: m.id == n.id != "" ==> Observed(m) == Observed(n)
  }

  predicate Newest(messages: seq<Message>, m: Message) {
    forall n <- messages :: Observed(n) <= Observed(m)
  }

  ghost predicate Ascending(messages: seq<Message>) {
    forall i, j | 0 <= i <= j < |messages| :: Observed(messages[i]) <= Observed(messages[j])
  }

  /** What the filter remembers of a subject is the last message it let through. */
  lemma {:induction false} MemoryIsTheLastAccepted(arrivals: seq<Arrival>, subject: string)
    ensures subject in After(arrivals) <==> Accepted(arrivals, subject) != []
    ensures Accepted(arrivals, subject) == [] <==> Arrived(arrivals, subject) == []
    ensures var accepted := Accepted(arrivals, subject);
      accepted != [] ==>
        var last := accepted[|accepted| - 1];
        last in Arrived(arrivals, subject) && After(arrivals)[subject] == Delivered(last.id, Observed(last))
  {
    if arrivals != [] {
      MemoryIsTheLastAccepted(arrivals[..|arrivals| - 1], subject);
    }
  }

  lemma AscendingExtends(messages: seq<Message>, m: Message)
    requires Ascending(messages) && (messages != [] ==> Observed(messages[|messages| - 1]) <= Observed(m))
    ensures Ascending(messages + [m])
  {
  }

  lemma NewestExtends(messages: seq<Message>, last: Message, m: Message)
    requires Newest(messages, last)
    ensures Observed(m) <= Observed(last) ==> Newest(messages + [m], last)
    ensures Observed(last) <= Observed(m) ==> Newest(messages + [m], m)
  {
  }

  /** The last of the newest messages. */
  function NewestOf(messages: seq<Message>): (newest: Message)
    requires messages != []
    ensures newest in messages && Newest(messages, newest)
  {
    if |messages| == 1 then messages[0]
    else
      var before, m := messages[..|messages| - 1], messages[|messages| - 1];
      var n := NewestOf(before);
      assert messages == before + [m];
      if Observed(n) <= Observed(m) then m else n
  }

  predicate Repeats(m: Message, n: Message) {
    m.id != "" && m.id == n.id
  }

  /** What may arrive after the newest so far: no later time under its id, and otherwise no message without a time. */
  predicate Fits(newest: Message, m: Message) {
    if Repeats(m, newest) then Observed(m) <= Observed(newest)
    else (Timed(m) && Timed(newest)) || Observed(newest) <= Observed(m)
  }

  ghost predicate Orderly(messages: seq<Message>) {
    forall k | 0 < k < |messages| :: FitsAt(messages, k)
  }

  ghost predicate FitsAt(messages: seq<Message>, k: nat)
    requires 0 < k < |messages|
  {
    Fits(NewestOf(messages[..k]), messages[k])
  }

  lemma OrderlyExtends(messages: seq<Message>, m: Message)
    requires messages != []
    ensures Orderly(messages + [m]) <==> Orderly(messages) && Fits(NewestOf(messages), m)
  {
    var more := messages + [m];
    assert more[..|messages|] == messages;
    assert forall k | 0 < k < |messages| :: more[..k] == messages[..k];
    forall k | 0 < k < |messages| ensures FitsAt(more, k) <==> FitsAt(messages, k) {
    }
    assert FitsAt(more, |messages|) <==> Fits(NewestOf(messages), m);
  }

  predicate SameStamp(m: Message, n: Message) {
    m.id == n.id && Observed(m) == Observed(n)
  }

  /** The accepted messages go forward in time and the last of them stands for the newest that arrived. */
  ghost predicate KeepsNewest(accepted: seq<Message>, arrived: seq<Message>) {
    && Ascending(accepted) && (accepted == [] <==> arrived == [])
    && (accepted != [] ==> SameStamp(accepted[|accepted| - 1], NewestOf(arrived)))
  }

  ghost predicate LastIsNewest(arrivals: seq<Arrival>, subject: string) {
    var accepted := Accepted(arrivals, subject);
    accepted != [] ==> Newest(Arrived(arrivals, subject), accepted[|accepted| - 1])
  }

  /** After every prefix of the arrivals the last accepted message is the newest that arrived. */
  ghost predicate AlwaysNewest(arrivals: seq<Arrival>, subject: string) {
    forall k | 0 <= k <= |arrivals| :: LastIsNewest(arrivals[..k], subject)
  }

  lemma AlwaysNewestExtends(arrivals: seq<Arrival>, a: Arrival, subject: string)
    ensures AlwaysNewest(arrivals + [a], subject) <==> AlwaysNewest(arrivals, subject) && LastIsNewest(arrivals + [a], subject)
  {
    var all := arrivals + [a];
    assert all[..|all|] == all;
    forall k | 0 <= k <= |arrivals| ensures LastIsNewest(all[..k], subject) <==> LastIsNewest(arrivals[..k], subject) {
      assert all[..k] == arrivals[..k];
    }
  }

  lemma Arrives(arrivals: seq<Arrival>, a: Arrival, subject: string)
    ensures Arrived(arrivals + [a], subject) == Arrived(arrivals, subject) + if a.subject == subject then [a.message] else []
    ensures Accepted(arrivals + [a], subject)
      == Accepted(arrivals, subject) + if a.subject == subject && Accepts(After(arrivals), a) then [a.message] else []
  {
    assert (arrivals + [a])[..|arrivals|] == arrivals;
  }

  /** While the last accepted stands for the newest, a message is judged against the newest. */
  lemma JudgedByNewest(arrivals: seq<Arrival>, a: Arrival)
    requires KeepsNewest(Accepted(arrivals, a.subject), Arrived(arrivals, a.subject)) && Arrived(arrivals, a.subject) != []
    ensures var n := NewestOf(Arrived(arrivals, a.subject));
      Accepts(After(arrivals), a) <==>
        !Repeats(a.message, n) && (Timed(a.message) && Timed(n) ==> Observed(n) <= Observed(a.message))
  {
    MemoryIsTheLastAccepted(arrivals, a.subject);
  }

  lemma NewestStep(arrivals: seq<Arrival>, a: Arrival)
    requires KeepsNewest(Accepted(arrivals, a.subject), Arrived(arrivals, a.subject)) && Arrived(arrivals, a.subject) != []
    ensures var arrived, accepted := Arrived(arrivals, a.subject), Accepted(arrivals, a.subject);
      var now := if Accepts(After(arrivals), a) then accepted + [a.message] else accepted;
      && (Newest(arrived + [a.message], now[|now| - 1]) <==> Fits(NewestOf(arrived), a.message))
      && (Fits(NewestOf(arrived), a.message) ==> KeepsNewest(now, arrived + [a.message]))
  {
    var arrived, accepted := Arrived(arrivals, a.subject), Accepted(arrivals, a.subject);
    var n, m := NewestOf(arrived), a.message;
    JudgedByNewest(arrivals, a);
    NewestExtends(arrived, n, m);
    assert (arrived + [m])[..|arrived|] == arrived;
    assert m in arrived + [m] && n in arrived + [m];
    if Observed(accepted[|accepted| - 1]) <= Observed(m) {
      AscendingExtends(accepted, m);
    }
  }

  lemma FirstArrival(arrivals: seq<Arrival>, a: Arrival)
    requires Arrived(arrivals, a.subject) == []
    ensures Accepts(After(arrivals), a) && Accepted(arrivals, a.subject) == []
  {
    MemoryIsTheLastAccepted(arrivals, a.subject);
  }

  lemma {:induction false} OrderIsNewest(arrivals: seq<Arrival>, subject: string)
    ensures OrderShown(arrivals, subject)
  {
    if arrivals != [] {
      var before, a := arrivals[..|arrivals| - 1], arrivals[|arrivals| - 1];
      assert arrivals == before + [a];
      OrderIsNewest(before, subject);
      if a.subject != subject {
        OtherSubjectStep(before, a, subject);
      } else if Arrived(before, subject) == [] {
        FirstStep(before, a);
      } else {
        LaterStep(before, a);
      }
    }
  }

  /** What the induction shows of a history. */
  ghost predicate OrderShown(arrivals: seq<Arrival>, subject: string) {
    && (AlwaysNewest(arrivals, subject) <==> Orderly(Arrived(arrivals, subject)))
    && (Orderly(Arrived(arrivals, subject)) ==> KeepsNewest(Accepted(arrivals, subject), Arrived(arrivals, subject)))
  }

  lemma OtherSubjectStep(before: seq<Arrival>, a: Arrival, subject: string)
    requires OrderShown(before, subject) && a.subject != subject
    ensures OrderShown(before + [a], subject)
  {
    Arrives(before, a, subject);
    AlwaysNewestExtends(before, a, subject);
    AlwaysIncludesNow(before, subject);
    assert Arrived(before + [a], subject) == Arrived(before, subject) && Accepted(before + [a], subject) == Accepted(before, subject);
  }

  lemma AlwaysIncludesNow(arrivals: seq<Arrival>, subject: string)
    ensures AlwaysNewest(arrivals, subject) ==> LastIsNewest(arrivals, subject)
  {
    assert arrivals[..|arrivals|] == arrivals;
  }

  lemma FirstStep(before: seq<Arrival>, a: Arrival)
    requires OrderShown(before, a.subject) && Arrived(before, a.subject) == []
    ensures OrderShown(before + [a], a.subject)
  {
    Arrives(before, a, a.subject);
    AlwaysNewestExtends(before, a, a.subject);
    FirstArrival(before, a);
    assert Arrived(before + [a], a.subject) == [a.message] == Accepted(before + [a], a.subject);
  }

  lemma LaterStep(before: seq<Arrival>, a: Arrival)
    requires OrderShown(before, a.subject) && Arrived(before, a.subject) != []
    ensures OrderShown(before + [a], a.subject)
  {
    Arrives(before, a, a.subject);
    AlwaysNewestExtends(before, a, a.subject);
    OrderlyExtends(Arrived(before, a.subject), a.message);
    if Orderly(Arrived(before, a.subject)) {
      NewestStep(before, a);
    }
  }

  /**
   After every prefix the last accepted message is the newest of everything that arrived, if and only if
   no message repeats the id of the newest so far with a later time, and no message without a time
   follows a newer one unless it repeats its id.
   */
  lemma LastAcceptedIsNewestExactly(arrivals: seq<Arrival>, subject: string)
    ensures AlwaysNewest(arrivals, subject) <==> Orderly(Arrived(arrivals, subject))
  {
    OrderIsNewest(arrivals, subject);
  }

  /** Then the accepted messages also never go back in time. */
  lemma AcceptedNeverGoBack(arrivals: seq<Arrival>, subject: string)
    requires Orderly(Arrived(arrivals, subject))
    ensures Ascending(Accepted(arrivals, subject)) && LastIsNewest(arrivals, subject)
  {
    OrderIsNewest(arrivals, subject);
  }

  /** Times on every message and ids that name one observation are enough. */
  lemma WellStampedIsOrderly(messages: seq<Message>)
    requires WellStamped(messages)
    ensures Orderly(messages)
  {
    forall k | 0 < k < |messages| ensures FitsAt(messages, k) {
      var n := NewestOf(messages[..k]);
      assert n in messages && messages[k] in messages;
    }
  }

  /** After an orderly history a message is let through exactly when it neither repeats the newest nor is older than it. */
  lemma AcceptedExactlyWhenNewest(arrivals: seq<Arrival>, a: Arrival)
    requires Orderly(Arrived(arrivals, a.subject))
    ensures var arrived := Arrived(arrivals, a.subject);
      Accepts(After(arrivals), a) <==>
        arrived == [] ||
        (var n := NewestOf(arrived);
          !Repeats(a.message, n) && (Timed(a.message) && Timed(n) ==> Observed(n) <= Observed(a.message)))
  {
    OrderIsNewest(arrivals, a.subject);
    if Arrived(arrivals, a.subject) == [] {
      FirstArrival(arrivals, a);
    } else {
      JudgedByNewest(arrivals, a);
    }
  }

  /** Other subjects have no say. */
  lemma {:induction false} SubjectsAreIndependent(left: seq<Arrival>, right: seq<Arrival>, subject: string)
    requires Arrived(left, subject) == Arrived(right, subject)
    ensures Accepted(left, subject) == Accepted(right, subject)
    ensures subject in After(left) <==> subject in After(right)
    ensures subject in After(left) ==> After(left)[subject] == After(right)[subject]
    decreases |left| + |right|
  {
    if left != [] && left[|left| - 1].subject != subject {
      SubjectsAreIndependent(left[..|left| - 1], right, subject);
    } else if right != [] && right[|right| - 1].subject != subject {
      SubjectsAreIndependent(left, right[..|right| - 1], subject);
    } else if left != [] && right != [] {
      var l, r := left[|left| - 1], right[|right| - 1];
      assert Arrived(left, subject)[|Arrived(left, subject)| - 1] == l.message;
      assert Arrived(right, subject)[|Arrived(right, subject)| - 1] == r.message;
      assert Arrived(left[..|left| - 1], subject) == Arrived(left, subject)[..|Arrived(left, subject)| - 1];
      assert Arrived(right[..|right| - 1], subject) == Arrived(right, subject)[..|Arrived(right, subject)| - 1];
      SubjectsAreIndependent(left[..|left| - 1], right[..|right| - 1], subject);
    }
  }

  /**
   The times are needed: after any run, once a message without a time gets through, the next message
   of that subject passes however old it is.
   */
  lemma AnUntimedMessageForgets(arrivals: seq<Arrival>, untimed: Arrival, next: Arrival)
    requires !Timed(untimed.message) && Accepts(After(arrivals), untimed)
    requires next.subject == untimed.subject && !Repeats(next.message, untimed.message)
    ensures Accepted(arrivals + [untimed, next], next.subject)
         == Accepted(arrivals, next.subject) + [untimed.message, next.message]
  {
    var one := arrivals + [untimed];
    Arrives(arrivals, untimed, next.subject);
    MemoryIsTheLastAccepted(one, next.subject);
    Arrives(one, next, next.subject);
    assert arrivals + [untimed, next] == one + [next];
  }

  /** So the last message let through need not be the newest. */
  lemma NewestCanBeLost(subject: string)
    ensures var newer, untimed, older := Message("a", Some(5)), Message("b", None), Message("c", Some(3));
      var arrivals := [Arrival(subject, newer)] + [Arrival(subject, untimed), Arrival(subject, older)];
      Accepted(arrivals, subject) == [newer, untimed, older] && !Newest(Arrived(arrivals, subject), older)
  {
    var newer, untimed, older := Message("a", Some(5)), Message("b", None), Message("c", Some(3));
    var first := [Arrival(subject, newer)];
    assert first[..0] == [];
    AnUntimedMessageForgets(first, Arrival(subject, untimed), Arrival(subject, older));
    var all := first + [Arrival(subject, untimed), Arrival(subject, older)];
    var two := all[..2];
    assert two[..1] == first;
    assert Arrived(first, subject) == [newer];
    assert Arrived(two, subject) == [newer] + [untimed];
    assert Arrived(all, subject) == [newer] + [untimed] + [older];
    assert newer in Arrived(all, subject) && Observed(newer) > Observed(older);
  }

  /** Nor when an id comes back with a later time. */
  lemma RepeatedIdHidesNewer(subject: string, id: string, t: Instant, u: Instant)
    requires id != "" && t < u
    ensures var older, newer := Message(id, Some(t)), Message(id, Some(u));
      var arrivals := [Arrival(subject, older)] + [Arrival(subject, newer)];
      Accepted(arrivals, subject) == [older] && !LastIsNewest(arrivals, subject)
  {
    var older, newer := Message(id, Some(t)), Message(id, Some(u));
    var first, second := Arrival(subject, older), Arrival(subject, newer);
    assert [first][..0] == [];
    assert Accepted([first], subject) == [older] && Arrived([first], subject) == [older];
    MemoryIsTheLastAccepted([first], subject);
    Arrives([first], second, subject);
    assert newer in Arrived([first] + [second], subject) && Observed(older) < Observed(newer);
  }

  class DeliveryState {
    var last: Memory
    /** Everything offered so far. */
    ghost var offered: seq<Arrival>

    ghost predicate Valid()
      reads this
    {
      last == After(offered)
    }

    constructor ()
      ensures Valid() && offered == []
    {
      last, offered := map[], [];
    }

    /** An absent message passes without being remembered. */
    method Accept(subject: string, message: Option<Message>) returns (pass: bool)
      requires Valid()
      modifies this
      ensures Valid()
      ensures message.None? ==> pass && offered == old(offered)
      ensures message.Some? ==>
        var a := Arrival(subject, message.value);
        && offered == old(offered) + [a]
        && pass == Accepts(After(old(offered)), a)
        && Accepted(offered, subject) == Accepted(old(offered), subject) + if pass then [message.value] else []
    {
      if message.None? {
        return true;
      }
      ghost var before := offered;
      offered := offered + [Arrival(subject, message.value)];
      assert offered[..|offered| - 1] == before;
      var seen := subject in last;
      var id := message.value.id;
      if id != "" && seen && last[subject].id == id {
        return false;
      }
      var observed := ZERO_TIME;
      if message.value.observedAt.Some? {
        observed := message.value.observedAt.value;
      }
      if seen && last[subject].observed != ZERO_TIME && observed != ZERO_TIME && observed < last[subject].observed {
        return false;
      }
      last := last[subject := Delivered(id, observed)];
      pass := true;
    }
  }
}
