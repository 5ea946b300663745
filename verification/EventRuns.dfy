/** Whole runs of the payload event queue: notifications, the passing of time, and wake-ups. */
module EventRuns {
  import opened EventList

  /** The notification of an sc_event that is pending, if any. */
  datatype Alarm = Off | On(at: nat)

  datatype Delivery<P> = Delivery(event: Event<P>, at: nat)

  /** log holds the deliveries made so far, and booked every event that a notice was ever given for. */
  datatype Queue<P> = Queue(now: nat, list: seq<Event<P>>, alarm: Alarm, log: seq<Delivery<P>>, booked: seq<Event<P>>)

  /** others says that there are notifications without delay for the next delta cycle. */
  datatype Step<!P> =
    | Notify(notice: Notice<P>, delta: nat)
    | Pass(until: nat)
    | Wake(reply: (nat, P) -> seq<Notice<P>>, delta: nat, others: bool)

  ghost function Fresh<P>(): Queue<P> {
    Queue(0, [], Off, [], [])
  }

  // ----- the alarm

  /** A notification for time t takes effect unless an earlier one is pending. */
  ghost function Sooner(alarm: Alarm, t: nat): (r: Alarm)
    ensures r.On? && r.at <= t && (alarm.On? ==> r.at <= alarm.at)
    ensures r == On(t) || r == alarm
  {
    if alarm.Off? || t < alarm.at then On(t) else alarm
  }

  ghost function Rung<P>(alarm: Alarm, notices: seq<Notice<P>>, now: nat): Alarm {
    if |notices| == 0 then alarm
    else Sooner(Rung(alarm, notices[..|notices| - 1], now), now + notices[|notices| - 1].delay)
  }

  /** The alarm after the callback has answered the deliveries of q. */
  ghost function Answered<P>(q: seq<Event<P>>, reply: (nat, P) -> seq<Notice<P>>, first: nat, now: nat): Alarm {
    if |q| == 0 then Off
    else
      var n := |q| - 1;
      Rung(Answered(q[..n], reply, first, now), reply(first + n, q[n].payload), now)
  }

  ghost function Rearmed<P>(alarm: Alarm, list: seq<Event<P>>, others: bool, now: nat): Alarm {
    var front := if |list| == 0 then alarm else Sooner(alarm, list[0].time);
    if others then Sooner(front, now) else front
  }

  // ----- steps and runs

  ghost function Logged<P>(q: seq<Event<P>>, now: nat): seq<Delivery<P>> {
    if |q| == 0 then [] else Logged(q[..|q| - 1], now) + [Delivery(q[|q| - 1], now)]
  }

  ghost function Apply<P>(step: Step<P>, s: Queue<P>): Queue<P> {
    match step
    case Notify(n, delta) =>
      var es := Booked(n, s.now, delta);
      Queue(s.now, InsertAll(s.list, es), Sooner(s.alarm, s.now + n.delay), s.log, s.booked + es)
    case Pass(t) =>
      s.(now := t)
    case Wake(reply, delta, others) =>
      var first, due := |s.log|, s.list[..Ready(s.list, s.now)];
      var list := EventList.Delivered(s.list, reply, first, s.now, delta);
      Queue(s.now, list, Rearmed(Answered(due, reply, first, s.now), list, others, s.now),
            s.log + Logged(due, s.now), s.booked + Replies(due, reply, first, s.now, delta))
  }

  /** Time does not go back, nor beyond a pending notification. */
  ghost predicate Legal<P>(step: Step<P>, s: Queue<P>) {
    step.Pass? ==> s.now <= step.until && (s.alarm.On? ==> step.until <= s.alarm.at)
  }

  ghost function Run<P>(steps: seq<Step<P>>, s: Queue<P>): Queue<P> {
    if |steps| == 0 then s else Apply(steps[|steps| - 1], Run(steps[..|steps| - 1], s))
  }

  ghost predicate LegalRun<P>(steps: seq<Step<P>>, s: Queue<P>) {
    |steps| == 0 || (LegalRun(steps[..|steps| - 1], s) && Legal(steps[|steps| - 1], Run(steps[..|steps| - 1], s)))
  }

  // ----- no event is ever missed

  /** The list is sorted, none of it lies in the past, and the alarm goes off no later than its front is due. */
  ghost predicate OnTime<P>(s: Queue<P>) {
    && Sorted(s.list)
    && (forall i :: 0 <= i < |s.list| ==> s.list[i].time >= s.now)
    && (|s.list| > 0 ==> s.alarm.On? && s.alarm.at <= s.list[0].time)
  }

  lemma InsertedMembers<P>(q: seq<Event<P>>, e: Event<P>)
    ensures forall i :: 0 <= i < |Inserted(q, e)| ==> Inserted(q, e)[i] == e || Inserted(q, e)[i] in q
    ensures Inserted(q, e)[0] == e || (|q| > 0 && Inserted(q, e)[0] == q[0])
  {
    hide Place;
    var k := Place(q, e.time);
    var r := Inserted(q, e);
    forall i | 0 <= i < |r| ensures r[i] == e || r[i] in q {
      if i < k {
        assert r[i] == q[i];
      } else if i > k {
        assert r[i] == q[i - 1];
      }
    }
  }

  lemma NotifyOnTime<P>(n: Notice<P>, delta: nat, s: Queue<P>)
    requires OnTime(s)
    ensures OnTime(Apply(Step.Notify(n, delta), s))
  {
    hide Sooner, Inserted, Sorted;
    if n.delay == 0 {
      assert Booked(n, s.now, delta) == [];
    } else {
      var e := Event(n.payload, s.now + n.delay, delta);
      assert InsertAll(s.list, [e]) == Inserted(s.list, e) by {
        assert [e][..0] == [];
      }
      InsertKeepsSorted(s.list, e);
      InsertedMembers(s.list, e);
    }
  }

  lemma WakeOnTime<P>(reply: (nat, P) -> seq<Notice<P>>, delta: nat, others: bool, s: Queue<P>)
    requires OnTime(s)
    ensures var r := Apply(Wake(reply, delta, others), s);
            OnTime(r) && forall i :: 0 <= i < |r.list| ==> r.list[i].time > r.now
  {
    hide Sooner, Sorted, Answered, EventList.Delivered;
    DeliveryMissesNothing(s.list, reply, |s.log|, s.now, delta);
  }

  lemma StepOnTime<P>(step: Step<P>, s: Queue<P>)
    requires OnTime(s) && Legal(step, s)
    ensures OnTime(Apply(step, s))
  {
    match step
    case Notify(n, delta) => NotifyOnTime(n, delta, s);
    case Wake(reply, delta, others) => WakeOnTime(reply, delta, others, s);
    case Pass(t) =>
  }

  lemma {:induction false} RunOnTime<P>(steps: seq<Step<P>>, s: Queue<P>)
    requires OnTime(s) && LegalRun(steps, s)
    ensures OnTime(Run(steps, s))
  {
    hide OnTime, Legal, Apply;
    if |steps| > 0 {
      RunOnTime(steps[..|steps| - 1], s);
      StepOnTime(steps[|steps| - 1], Run(steps[..|steps| - 1], s));
    }
  }

  // ----- every notice is delivered once, in time and in order

  /** The events delivered at time t, in order of delivery. */
  ghost function DeliveredAt<P>(log: seq<Delivery<P>>, t: nat): seq<Event<P>> {
    if |log| == 0 then []
    else DeliveredAt(log[..|log| - 1], t) + if log[|log| - 1].at == t then [log[|log| - 1].event] else []
  }

  /** What was booked for t is what was delivered at t, followed by what is still in the list for t. */
  ghost predicate Accounted<P>(s: Queue<P>, t: nat) {
    DeliveredAt(s.log, t) + Due(s.list, t) == Due(s.booked, t)
  }

  lemma {:induction false} DeliveredJoin<P>(a: seq<Delivery<P>>, b: seq<Delivery<P>>, t: nat)
    ensures DeliveredAt(a + b, t) == DeliveredAt(a, t) + DeliveredAt(b, t)
  {
    if |b| == 0 {
      assert a + b == a;
    } else {
      var n := |b| - 1;
      assert (a + b)[..|a| + n] == a + b[..n];
      DeliveredJoin(a, b[..n], t);
    }
  }

  /** Events delivered when they are due are delivered at their time. */
  lemma {:induction false} LoggedInTime<P>(q: seq<Event<P>>, now: nat, t: nat)
    requires forall i :: 0 <= i < |q| ==> q[i].time == now
    ensures DeliveredAt(Logged(q, now), t) == Due(q, t)
  {
    if |q| > 0 {
      var n := |q| - 1;
      LoggedInTime(q[..n], now, t);
      assert Logged(q, now)[..|Logged(q, now)| - 1] == Logged(q[..n], now);
    }
  }

  lemma {:induction false} InsertAllSorted<P>(q: seq<Event<P>>, es: seq<Event<P>>, t: nat)
    requires Sorted(q)
    ensures Sorted(InsertAll(q, es)) && Due(InsertAll(q, es), t) == Due(q, t) + Due(es, t)
  {
    hide Sorted, Inserted;
    if |es| > 0 {
      var n := |es| - 1;
      InsertAllSorted(q, es[..n], t);
      InsertKeepsSorted(InsertAll(q, es[..n]), es[n]);
      InsertIsStable(InsertAll(q, es[..n]), es[n], t);
    }
  }

  lemma SortedTail<P>(q: seq<Event<P>>, k: nat)
    requires Sorted(q) && k <= |q|
    ensures Sorted(q[k..])
  {}

  lemma Accounts<T>(log: seq<T>, due: seq<T>, rest: seq<T>, more: seq<T>, booked: seq<T>)
    requires log + (due + rest) == booked
    ensures (log + due) + (rest + more) == booked + more
  {
    assert (log + due) + (rest + more) == (log + (due + rest)) + more;
  }

  lemma NotifyAccounted<P>(n: Notice<P>, delta: nat, s: Queue<P>, t: nat)
    requires Sorted(s.list) && Accounted(s, t)
    ensures Accounted(Apply(Step.Notify(n, delta), s), t)
  {
    hide DeliveredAt, Due, Sorted, InsertAll, Booked;
    var es := Booked(n, s.now, delta);
    InsertAllSorted(s.list, es, t);
    DueJoin(s.booked, es, t);
    assert DeliveredAt(s.log, t) + (Due(s.list, t) + Due(es, t)) == Due(s.booked, t) + Due(es, t);
  }

  lemma WakeAccounted<P>(reply: (nat, P) -> seq<Notice<P>>, delta: nat, others: bool, s: Queue<P>, t: nat)
    requires Sorted(s.list) && Accounted(s, t)
    ensures Accounted(Apply(Wake(reply, delta, others), s), t)
  {
    hide DeliveredAt, Due, Sorted, InsertAll, Replies, Logged, Ready;
    var k := Ready(s.list, s.now);
    var due, rest := s.list[..k], s.list[k..];
    var es := Replies(due, reply, |s.log|, s.now, delta);
    assert s.list == due + rest;
    DueJoin(due, rest, t);
    DueJoin(s.booked, es, t);
    DeliveredJoin(s.log, Logged(due, s.now), t);
    LoggedInTime(due, s.now, t);
    SortedTail(s.list, k);
    InsertAllSorted(rest, es, t);
    Accounts(DeliveredAt(s.log, t), Due(due, t), Due(rest, t), Due(es, t), Due(s.booked, t));
  }

  lemma {:induction false} RunAccounted<P>(steps: seq<Step<P>>, s: Queue<P>, t: nat)
    requires OnTime(s) && LegalRun(steps, s) && Accounted(s, t)
    ensures Accounted(Run(steps, s), t)
  {
    hide Accounted, Apply, Legal;
    if |steps| > 0 {
      var rest, step := steps[..|steps| - 1], steps[|steps| - 1];
      var s1 := Run(rest, s);
      RunAccounted(rest, s, t);
      RunOnTime(rest, s);
      match step
      case Notify(n, delta) => NotifyAccounted(n, delta, s1, t);
      case Wake(reply, delta, others) => WakeAccounted(reply, delta, others, s1, t);
      case Pass(u) => PassAccounted(u, s1, t);
    }
  }

  lemma PassAccounted<P>(u: nat, s: Queue<P>, t: nat)
    requires Accounted(s, t)
    ensures Accounted(Apply(Step<P>.Pass(u), s), t)
  {}

  /** Nothing is delivered before its time, nor at any time other than its own. */
  ghost predicate Punctual<P>(s: Queue<P>) {
    forall i :: 0 <= i < |s.log| ==> s.log[i].at <= s.now && s.log[i].event.time == s.log[i].at
  }

  lemma {:induction false} LoggedEntries<P>(q: seq<Event<P>>, now: nat)
    requires forall i :: 0 <= i < |q| ==> q[i].time == now
    ensures forall i :: 0 <= i < |Logged(q, now)| ==> Logged(q, now)[i].at == now && Logged(q, now)[i].event.time == now
  {
    if |q| > 0 {
      LoggedEntries(q[..|q| - 1], now);
    }
  }

  lemma {:induction false} RunPunctual<P>(steps: seq<Step<P>>, s: Queue<P>)
    requires Punctual(s) && LegalRun(steps, s)
    ensures Punctual(Run(steps, s))
  {
    hide Logged, Ready, Replies, InsertAll, Booked, Rearmed, Answered, EventList.Delivered;
    if |steps| > 0 {
      var rest, step := steps[..|steps| - 1], steps[|steps| - 1];
      var s1 := Run(rest, s);
      RunPunctual(rest, s);
      if step.Wake? {
        LoggedEntries(s1.list[..Ready(s1.list, s1.now)], s1.now);
      }
    }
  }

  lemma {:induction false} NothingAt<P>(log: seq<Delivery<P>>, t: nat)
    requires forall i :: 0 <= i < |log| ==> log[i].at != t
    ensures DeliveredAt(log, t) == []
  {
    if |log| > 0 {
      NothingAt(log[..|log| - 1], t);
    }
  }

  /**
   * Over any run from a new queue in which time waits for the alarm: the events delivered at a time that has
   * passed are exactly those ever booked for it, each once and in order of booking; those booked for a time to
   * come are all still in the list; and for the present time the delivered ones come first.
   */
  lemma EveryNoticeOnce<P>(steps: seq<Step<P>>, t: nat)
    requires LegalRun(steps, Fresh<P>())
    ensures var s := Run(steps, Fresh<P>());
            && OnTime(s) && Punctual(s) && Accounted(s, t)
            && (t < s.now ==> DeliveredAt(s.log, t) == Due(s.booked, t))
            && (t > s.now ==> DeliveredAt(s.log, t) == [] && Due(s.list, t) == Due(s.booked, t))
  {
    RunOnTime(steps, Fresh<P>());
    RunPunctual(steps, Fresh<P>());
    RunAccounted(steps, Fresh<P>(), t);
    var s := Run(steps, Fresh<P>());
    hide Run, LegalRun, Due, DeliveredAt;
    if t < s.now {
      DueNone(s.list, t);
    } else if t > s.now {
      NothingAt(s.log, t);
    }
  }

  /** After a wake-up nothing is left that is due now: all that was booked for this time has been delivered. */
  lemma WakeDeliversAll<P>(steps: seq<Step<P>>, reply: (nat, P) -> seq<Notice<P>>, delta: nat, others: bool)
    requires LegalRun(steps, Fresh<P>())
    ensures var s := Apply(Wake(reply, delta, others), Run(steps, Fresh<P>()));
            DeliveredAt(s.log, s.now) == Due(s.booked, s.now)
  {
    var s1 := Run(steps, Fresh<P>());
    EveryNoticeOnce(steps, s1.now);
    hide Run, LegalRun, Due, DeliveredAt, Apply;
    WakeOnTime(reply, delta, others, s1);
    WakeAccounted(reply, delta, others, s1, s1.now);
    var s := Apply(Wake(reply, delta, others), s1);
    assert s.now == s1.now by {
      WakeKeepsTime(reply, delta, others, s1);
    }
    DueNone(s.list, s.now);
  }

  lemma WakeKeepsTime<P>(reply: (nat, P) -> seq<Notice<P>>, delta: nat, others: bool, s: Queue<P>)
    ensures Apply(Wake(reply, delta, others), s).now == s.now
  {}

  // ----- what was asked for is what is delivered

  ghost function Payloads<P>(q: seq<Event<P>>): seq<P> {
    if |q| == 0 then [] else Payloads(q[..|q| - 1]) + [q[|q| - 1].payload]
  }

  /** The payloads of the notices, given at time now, that ask to be delivered at time t after a delay. */
  ghost function Wanted<P>(notices: seq<Notice<P>>, now: nat, t: nat): seq<P> {
    if |notices| == 0 then []
    else
      var n := notices[|notices| - 1];
      Wanted(notices[..|notices| - 1], now, t) + if n.delay > 0 && now + n.delay == t then [n.payload] else []
  }

  /** The same for the callback's answers to the deliveries ds, which are numbered from first on. */
  ghost function WantedBy<P>(ds: seq<Delivery<P>>, reply: (nat, P) -> seq<Notice<P>>, first: nat, t: nat): seq<P> {
    if |ds| == 0 then []
    else
      var d := ds[|ds| - 1];
      WantedBy(ds[..|ds| - 1], reply, first, t) + Wanted(reply(first + |ds| - 1, d.event.payload), d.at, t)
  }

  /** The payloads that a step at time now asks to be delivered at time t; log holds the deliveries from first on. */
  ghost function WantedStep<P>(step: Step<P>, now: nat, first: nat, log: seq<Delivery<P>>, t: nat): seq<P> {
    match step
    case Notify(n, delta) => Wanted([n], now, t)
    case Pass(_) => []
    case Wake(reply, delta, others) => if first <= |log| then WantedBy(log[first..], reply, first, t) else []
  }

  /** The payloads that the steps of a run, and the callback's answers during it, ask to be delivered at time t. */
  ghost function Asked<P>(steps: seq<Step<P>>, s: Queue<P>, t: nat): seq<P> {
    if |steps| == 0 then []
    else
      var rest := steps[..|steps| - 1];
      var before := Run(rest, s);
      Asked(rest, s, t) + WantedStep(steps[|steps| - 1], before.now, |before.log|, Run(steps, s).log, t)
  }

  lemma {:induction false} PayloadsJoin<P>(a: seq<Event<P>>, b: seq<Event<P>>)
    ensures Payloads(a + b) == Payloads(a) + Payloads(b)
  {
    if |b| == 0 {
      assert a + b == a;
    } else {
      var n := |b| - 1;
      assert (a + b)[..|a| + n] == a + b[..n];
      PayloadsJoin(a, b[..n]);
    }
  }

  lemma WantedOne<P>(n: Notice<P>, now: nat, delta: nat, t: nat)
    ensures Payloads(Due(Booked(n, now, delta), t)) == Wanted([n], now, t)
    ensures Wanted([n], now, t) == if n.delay > 0 && now + n.delay == t then [n.payload] else []
  {
    assert [n][..0] == [];
    if n.delay > 0 {
      var e := Event(n.payload, now + n.delay, delta);
      DueSingle(e, t);
      assert [e][..0] == [];
    }
  }

  lemma {:induction false} WantedTimed<P>(notices: seq<Notice<P>>, now: nat, delta: nat, t: nat)
    ensures Payloads(Due(Timed(notices, now, delta), t)) == Wanted(notices, now, t)
  {
    hide Due, Payloads, Booked;
    if |notices| == 0 {
      NothingPaid<P>(t);
    } else {
      var rest, n := notices[..|notices| - 1], notices[|notices| - 1];
      WantedTimed(rest, now, delta, t);
      WantedOne(n, now, delta, t);
      DueJoin(Timed(rest, now, delta), Booked(n, now, delta), t);
      PayloadsJoin(Due(Timed(rest, now, delta), t), Due(Booked(n, now, delta), t));
    }
  }

  lemma NothingPaid<P>(t: nat)
    ensures Payloads(Due<P>([], t)) == []
  {}

  lemma {:induction false} LoggedLength<P>(q: seq<Event<P>>, now: nat)
    ensures |Logged(q, now)| == |q|
  {
    if |q| > 0 {
      LoggedLength(q[..|q| - 1], now);
    }
  }

  lemma LoggedLast<P>(q: seq<Event<P>>, now: nat)
    requires |q| > 0
    ensures var n := |q| - 1;
            |Logged(q, now)| == n + 1 && Logged(q, now)[..n] == Logged(q[..n], now)
            && Logged(q, now)[n] == Delivery(q[n], now)
  {
    LoggedLength(q[..|q| - 1], now);
  }

  lemma {:induction false} WantedReplies<P>(q: seq<Event<P>>, reply: (nat, P) -> seq<Notice<P>>, first: nat, now: nat,
                                            delta: nat, t: nat)
    ensures Payloads(Due(Replies(q, reply, first, now, delta), t)) == WantedBy(Logged(q, now), reply, first, t)
  {
    hide Due, Payloads, Timed, Wanted;
    if |q| == 0 {
      NothingPaid<P>(t);
    } else {
      var n := |q| - 1;
      var rest, last := Replies(q[..n], reply, first, now, delta), Timed(reply(first + n, q[n].payload), now, delta);
      WantedReplies(q[..n], reply, first, now, delta, t);
      WantedTimed(reply(first + n, q[n].payload), now, delta, t);
      LoggedLast(q, now);
      hide Logged;
      DueJoin(rest, last, t);
      PayloadsJoin(Due(rest, t), Due(last, t));
    }
  }

  /** What one step books for time t is what it asks to be delivered then. */
  lemma StepBooks<P>(step: Step<P>, s: Queue<P>, t: nat)
    ensures var r := Apply(step, s);
            Payloads(Due(r.booked, t)) == Payloads(Due(s.booked, t)) + WantedStep(step, s.now, |s.log|, r.log, t)
  {
    hide Due, Payloads, Booked, Wanted, WantedBy, Logged, Replies, Ready, InsertAll, Rearmed, Answered;
    match step
    case Notify(n, delta) =>
      WantedOne(n, s.now, delta, t);
      DueJoin(s.booked, Booked(n, s.now, delta), t);
      PayloadsJoin(Due(s.booked, t), Due(Booked(n, s.now, delta), t));
    case Pass(_) =>
    case Wake(reply, delta, others) =>
      var due := s.list[..Ready(s.list, s.now)];
      var es := Replies(due, reply, |s.log|, s.now, delta);
      WantedReplies(due, reply, |s.log|, s.now, delta, t);
      assert (s.log + Logged(due, s.now))[|s.log|..] == Logged(due, s.now);
      DueJoin(s.booked, es, t);
      PayloadsJoin(Due(s.booked, t), Due(es, t));
  }

  lemma {:induction false} BookedAsAsked<P>(steps: seq<Step<P>>, s: Queue<P>, t: nat)
    requires s.booked == []
    ensures Payloads(Due(Run(steps, s).booked, t)) == Asked(steps, s, t)
  {
    hide Due, Payloads, WantedStep, Apply;
    if |steps| == 0 {
      NothingPaid<P>(t);
    } else {
      BookedAsAsked(steps[..|steps| - 1], s, t);
      StepBooks(steps[|steps| - 1], Run(steps[..|steps| - 1], s), t);
    }
  }

  /**
   * Over any run from a new queue in which time waits for the alarm, what is delivered at a time t that has passed
   * is, in order, the payload of every notice whose time of giving and delay add up to t, and nothing else.
   */
  lemma DeliveredAsAsked<P>(steps: seq<Step<P>>, t: nat)
    requires LegalRun(steps, Fresh<P>()) && t < Run(steps, Fresh<P>()).now
    ensures Payloads(DeliveredAt(Run(steps, Fresh<P>()).log, t)) == Asked(steps, Fresh<P>(), t)
  {
    hide Due, Payloads, DeliveredAt, Run, LegalRun, Asked;
    EveryNoticeOnce(steps, t);
    BookedAsAsked(steps, Fresh<P>(), t);
  }

  // ----- the alarm is exact, and leads to the delivery

  lemma {:induction false} FirstLogged<P>(q: seq<Event<P>>, now: nat)
    requires |q| > 0
    ensures |Logged(q, now)| > 0 && Logged(q, now)[0] == Delivery(q[0], now)
  {
    if |q| == 1 {
      assert q[..0] == [];
    } else {
      FirstLogged(q[..|q| - 1], now);
    }
  }

  /** When the alarm is set for the front of the list, time may move there, and a wake-up then delivers the front. */
  lemma FrontDelivered<P>(s: Queue<P>, reply: (nat, P) -> seq<Notice<P>>, delta: nat, others: bool)
    requires OnTime(s) && |s.list| > 0 && s.alarm == On(s.list[0].time)
    ensures var pass := Step<P>.Pass(s.alarm.at);
            var r := Apply(Wake(reply, delta, others), Apply(pass, s));
            && Legal(pass, s) && Apply(pass, s).now == r.now == s.list[0].time
            && |r.log| > |s.log| && r.log[|s.log|] == Delivery(s.list[0], s.list[0].time)
  {
    hide Rearmed, Answered, InsertAll, Replies, Logged;
    var now := s.list[0].time;
    FirstLogged(s.list[..Ready(s.list, now)], now);
  }

  ghost predicate GivenFor<P>(notices: seq<Notice<P>>, now: nat, t: nat) {
    exists i :: 0 <= i < |notices| && now + notices[i].delay == t
  }

  /** Of the alarm that was set and those that notices ask for, the soonest remains. */
  lemma {:induction false} RungSoonest<P>(alarm: Alarm, notices: seq<Notice<P>>, now: nat)
    ensures var r := Rung(alarm, notices, now);
            && (alarm.On? ==> r.On? && r.at <= alarm.at)
            && (forall i :: 0 <= i < |notices| ==> r.On? && r.at <= now + notices[i].delay)
            && (r == alarm || (r.On? && GivenFor(notices, now, r.at)))
  {
    if |notices| > 0 {
      var n := |notices| - 1;
      RungSoonest(alarm, notices[..n], now);
      var r, r1 := Rung(alarm, notices, now), Rung(alarm, notices[..n], now);
      if r == On(now + notices[n].delay) {
        assert GivenFor(notices, now, r.at);
      } else if r != alarm {
        var i :| 0 <= i < n && now + notices[..n][i].delay == r1.at;
        assert now + notices[i].delay == r.at;
      }
    }
  }

  /** After a wake-up that delivers nothing, the alarm is set for exactly the front of the list, if there is one. */
  lemma AlarmExact<P>(s: Queue<P>, reply: (nat, P) -> seq<Notice<P>>, delta: nat)
    requires OnTime(s) && (|s.list| > 0 ==> s.list[0].time > s.now)
    ensures var r := Apply(Wake(reply, delta, false), s);
            r.list == s.list && r.log == s.log && r.alarm == if |s.list| == 0 then Off else On(s.list[0].time)
  {
    assert Ready(s.list, s.now) == 0;
    assert s.list[..0] == [] && s.list[0..] == s.list;
    assert s.log + [] == s.log;
  }
}
