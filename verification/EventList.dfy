/** The time-ordered list of the payload event queue: a linked list with a sentinel and recycled nodes. */
module EventList {

  /** A pending notification: its payload, the time at which it is due and the delta count of its insertion. */
  datatype Event<P> = Event(payload: P, time: nat, delta: nat)

  // ----- what the list is for

  ghost predicate Sorted<P>(q: seq<Event<P>>) {
    forall i, j :: 0 <= i < j < |q| ==> q[i].time <= q[j].time
  }

  /** The number of events due no later than t at the front of the list. */
  ghost function Place<P>(q: seq<Event<P>>, t: nat): (k: nat)
    ensures k <= |q|
  {
    if |q| == 0 || q[0].time > t then 0 else 1 + Place(q[1..], t)
  }

  ghost function Inserted<P>(q: seq<Event<P>>, e: Event<P>): seq<Event<P>> {
    q[..Place(q, e.time)] + [e] + q[Place(q, e.time)..]
  }

  /** The events of a list that are due at time t, in order. */
  ghost function Due<P>(q: seq<Event<P>>, t: nat): seq<Event<P>> {
    if |q| == 0 then [] else Due(q[..|q| - 1], t) + if q[|q| - 1].time == t then [q[|q| - 1]] else []
  }

  lemma {:induction false} PlaceSplits<P>(q: seq<Event<P>>, t: nat)
    requires Sorted(q)
    ensures forall i :: 0 <= i < Place(q, t) ==> q[i].time <= t
    ensures forall i :: Place(q, t) <= i < |q| ==> q[i].time > t
  {
    if |q| > 0 && q[0].time <= t {
      PlaceSplits(q[1..], t);
      forall i | Place(q, t) <= i < |q| ensures q[i].time > t {
        assert q[i] == q[1..][i - 1];
      }
    }
  }

  lemma {:induction false} PlaceIs<P>(q: seq<Event<P>>, t: nat, k: nat)
    requires k <= |q| && (forall i :: 0 <= i < k ==> q[i].time <= t) && (k == |q| || q[k].time > t)
    ensures Place(q, t) == k
  {
    if k > 0 {
      PlaceIs(q[1..], t, k - 1);
    }
  }

  /** Insertion keeps the list in order of time. */
  lemma InsertKeepsSorted<P>(q: seq<Event<P>>, e: Event<P>)
    requires Sorted(q)
    ensures Sorted(Inserted(q, e))
  {
    PlaceSplits(q, e.time);
  }

  /** Insertion adds one event and loses none. */
  lemma InsertAddsOne<P>(q: seq<Event<P>>, e: Event<P>)
    ensures multiset(Inserted(q, e)) == multiset(q) + multiset{e}
  {
    hide Place;
    var k := Place(q, e.time);
    assert q == q[..k] + q[k..];
  }

  lemma {:induction false} DueJoin<P>(a: seq<Event<P>>, b: seq<Event<P>>, t: nat)
    ensures Due(a + b, t) == Due(a, t) + Due(b, t)
  {
    if |b| == 0 {
      assert a + b == a;
    } else {
      var n := |b| - 1;
      assert (a + b)[..|a| + n] == a + b[..n];
      DueJoin(a, b[..n], t);
    }
  }

  lemma {:induction false} DueNone<P>(q: seq<Event<P>>, t: nat)
    requires forall i :: 0 <= i < |q| ==> q[i].time != t
    ensures Due(q, t) == []
  {
    if |q| > 0 {
      DueNone(q[..|q| - 1], t);
    }
  }

  lemma DueAround<P>(a: seq<Event<P>>, e: Event<P>, b: seq<Event<P>>, t: nat)
    ensures Due(a + [e] + b, t) == Due(a, t) + (if e.time == t then [e] else []) + Due(b, t)
  {
    DueSingle(e, t);
    hide Due;
    DueJoin(a + [e], b, t);
    DueJoin(a, [e], t);
  }

  /** Among events of equal time the new one comes last; the order of all others is unchanged. */
  lemma InsertIsStable<P>(q: seq<Event<P>>, e: Event<P>, t: nat)
    requires Sorted(q)
    ensures Due(Inserted(q, e), t) == Due(q, t) + if e.time == t then [e] else []
  {
    hide Due, Place;
    var k := Place(q, e.time);
    var a, b := q[..k], q[k..];
    assert q == a + b;
    DueJoin(a, b, t);
    DueAround(a, e, b, t);
    if e.time == t {
      PlaceSplits(q, t);
      DueNone(b, t);
    }
  }

  lemma DueSingle<P>(e: Event<P>, t: nat)
    ensures Due([e], t) == if e.time == t then [e] else []
  {
    assert [e][..0] == [];
  }

  // ----- whole runs

  datatype Operation<P> = Insert(event: Event<P>) | DeleteTop

  ghost function Apply<P>(op: Operation<P>, q: seq<Event<P>>): seq<Event<P>> {
    match op
    case Insert(e) => Inserted(q, e)
    case DeleteTop => if |q| == 0 then q else q[1..]
  }

  ghost function Run<P>(ops: seq<Operation<P>>, q: seq<Event<P>>): seq<Event<P>> {
    if |ops| == 0 then q else Apply(ops[|ops| - 1], Run(ops[..|ops| - 1], q))
  }

  lemma {:induction false} RunKeepsSorted<P>(ops: seq<Operation<P>>, q: seq<Event<P>>)
    requires Sorted(q)
    ensures Sorted(Run(ops, q))
  {
    if |ops| > 0 {
      RunKeepsSorted(ops[..|ops| - 1], q);
      var op := ops[|ops| - 1];
      if op.Insert? {
        InsertKeepsSorted(Run(ops[..|ops| - 1], q), op.event);
      }
    }
  }

  /** The events of a run inserted for time t, in order of insertion. */
  ghost function Scheduled<P>(ops: seq<Operation<P>>, t: nat): seq<Event<P>> {
    if |ops| == 0 then []
    else
      var op := ops[|ops| - 1];
      Scheduled(ops[..|ops| - 1], t) + if op.Insert? && op.event.time == t then [op.event] else []
  }

  ghost predicate Suffix<T>(a: seq<T>, b: seq<T>) {
    |a| <= |b| && a == b[|b| - |a|..]
  }

  lemma SuffixAppend<T>(a: seq<T>, b: seq<T>, c: seq<T>)
    requires Suffix(a, b)
    ensures Suffix(a + c, b + c)
  {}

  lemma SuffixTail<T>(a: seq<T>, b: seq<T>, c: seq<T>)
    requires Suffix(a + b, c)
    ensures Suffix(b, c)
  {}

  /** First in, first out at each time: what is pending for t is the end of what was ever inserted for t. */
  lemma {:induction false} FirstInFirstOut<P>(ops: seq<Operation<P>>, t: nat)
    ensures Suffix(Due(Run(ops, []), t), Scheduled(ops, t))
  {
    if |ops| > 0 {
      var rest, op := ops[..|ops| - 1], ops[|ops| - 1];
      var q := Run(rest, []);
      FirstInFirstOut(rest, t);
      RunKeepsSorted(rest, []);
      hide Due, Suffix, Inserted;
      var now := if op.Insert? && op.event.time == t then [op.event] else [];
      SuffixAppend(Due(q, t), Scheduled(rest, t), now);
      if op.Insert? {
        InsertIsStable(q, op.event, t);
      } else {
        assert Scheduled(rest, t) + [] == Scheduled(rest, t);
        if |q| > 0 {
          assert q == [q[0]] + q[1..];
          DueJoin([q[0]], q[1..], t);
          SuffixTail(Due([q[0]], t), Due(q[1..], t), Scheduled(rest, t));
        }
      }
    }
  }

  // ----- delivery

  /** The number of events at the front of the list that are due exactly now. */
  ghost function Ready<P>(q: seq<Event<P>>, now: nat): (k: nat)
    ensures k <= |q|
    ensures forall i :: 0 <= i < k ==> q[i].time == now
    ensures k < |q| ==> q[k].time != now
  {
    if |q| == 0 || q[0].time != now then 0 else
      var k := Ready(q[1..], now);
      assert forall i :: 1 <= i < k + 1 ==> q[i] == q[1..][i - 1];
      1 + k
  }

  /** Unless an event has been missed, what is delivered is all that is due now, in order of insertion. */
  lemma {:induction false} ReadyIsDue<P>(q: seq<Event<P>>, now: nat)
    requires Sorted(q) && (|q| > 0 ==> q[0].time >= now)
    ensures q[..Ready(q, now)] == Due(q, now)
  {
    if |q| == 0 {
    } else if q[0].time == now {
      hide Due, Ready;
      ReadyIsDue(q[1..], now);
      ReadyCons(q, now);
      assert q == [q[0]] + q[1..];
      DueSingle(q[0], now);
      DueJoin([q[0]], q[1..], now);
    } else {
      DueNone(q, now);
    }
  }

  lemma ReadyCons<P>(q: seq<Event<P>>, now: nat)
    requires |q| > 0 && q[0].time == now
    ensures q[..Ready(q, now)] == [q[0]] + q[1..][..Ready(q[1..], now)]
  {}

  /** A notification that a delivery gives rise to, after some delay. */
  datatype Notice<P> = Notice(payload: P, delay: nat)

  ghost function InsertAll<P>(q: seq<Event<P>>, es: seq<Event<P>>): seq<Event<P>> {
    if |es| == 0 then q else Inserted(InsertAll(q, es[..|es| - 1]), es[|es| - 1])
  }

  /** The event for a notice given at time now; one without delay does not go through the list. */
  ghost function Booked<P>(n: Notice<P>, now: nat, delta: nat): (es: seq<Event<P>>)
    ensures forall i :: 0 <= i < |es| ==> es[i].time > now
  {
    if n.delay == 0 then [] else [Event(n.payload, now + n.delay, delta)]
  }

  ghost function Timed<P>(notices: seq<Notice<P>>, now: nat, delta: nat): (es: seq<Event<P>>)
    ensures forall i :: 0 <= i < |es| ==> es[i].time > now
  {
    if |notices| == 0 then []
    else Timed(notices[..|notices| - 1], now, delta) + Booked(notices[|notices| - 1], now, delta)
  }

  /**
   * The events for what the callback answers to the deliveries of q. The answers are numbered from the first
   * one on, so that they may depend on all that the callback has seen before.
   */
  ghost function Replies<P>(q: seq<Event<P>>, reply: (nat, P) -> seq<Notice<P>>, first: nat, now: nat, delta: nat)
    : (es: seq<Event<P>>)
    ensures forall i :: 0 <= i < |es| ==> es[i].time > now
  {
    if |q| == 0 then []
    else
      Replies(q[..|q| - 1], reply, first, now, delta)
      + Timed(reply(first + |q| - 1, q[|q| - 1].payload), now, delta)
  }

  lemma {:induction false} InsertAllJoin<P>(q: seq<Event<P>>, a: seq<Event<P>>, b: seq<Event<P>>)
    ensures InsertAll(q, a + b) == InsertAll(InsertAll(q, a), b)
  {
    hide Inserted;
    if |b| == 0 {
      assert a + b == a;
    } else {
      assert (a + b)[..|a + b| - 1] == a + b[..|b| - 1];
      InsertAllJoin(q, a, b[..|b| - 1]);
    }
  }

  /** Events that are later than the first one leave it in front. */
  lemma {:induction false} InsertAllBehind<P>(x: Event<P>, q: seq<Event<P>>, es: seq<Event<P>>)
    requires forall i :: 0 <= i < |es| ==> es[i].time >= x.time
    ensures InsertAll([x] + q, es) == [x] + InsertAll(q, es)
  {
    if |es| > 0 {
      var n := |es| - 1;
      InsertAllBehind(x, q, es[..n]);
      InsertBehind(x, InsertAll(q, es[..n]), es[n]);
    }
  }

  lemma InsertBehind<P>(x: Event<P>, q: seq<Event<P>>, e: Event<P>)
    requires e.time >= x.time
    ensures Inserted([x] + q, e) == [x] + Inserted(q, e)
  {
    assert ([x] + q)[1..] == q;
    var k := Place(q, e.time);
    hide Place;
    assert ([x] + q)[..k + 1] == [x] + q[..k] && ([x] + q)[k + 1..] == q[k..];
  }

  /** Later events do not make a list ready. */
  lemma {:induction false} InsertAllLater<P>(q: seq<Event<P>>, es: seq<Event<P>>, now: nat)
    requires |q| > 0 ==> q[0].time != now
    requires forall i :: 0 <= i < |es| ==> es[i].time > now
    ensures |InsertAll(q, es)| > 0 ==> InsertAll(q, es)[0].time != now
  {
    if |es| > 0 {
      InsertAllLater(q, es[..|es| - 1], now);
    }
  }

  lemma {:induction false} InsertAllKeeps<P>(q: seq<Event<P>>, es: seq<Event<P>>, now: nat)
    requires Sorted(q) && (forall i :: 0 <= i < |q| ==> q[i].time > now)
    requires forall i :: 0 <= i < |es| ==> es[i].time > now
    ensures Sorted(InsertAll(q, es)) && forall i :: 0 <= i < |InsertAll(q, es)| ==> InsertAll(q, es)[i].time > now
  {
    if |es| > 0 {
      var q1 := InsertAll(q, es[..|es| - 1]);
      InsertAllKeeps(q, es[..|es| - 1], now);
      InsertKeepsSorted(q1, es[|es| - 1]);
    }
  }

  /** The list that a delivery at time now leaves. */
  ghost function Delivered<P>(q: seq<Event<P>>, reply: (nat, P) -> seq<Notice<P>>, first: nat, now: nat, delta: nat)
    : seq<Event<P>>
  {
    var k := Ready(q, now);
    InsertAll(q[k..], Replies(q[..k], reply, first, now, delta))
  }

  /** If no event has been missed, a delivery leaves a sorted list whose events all lie in the future. */
  lemma DeliveryMissesNothing<P>(q: seq<Event<P>>, reply: (nat, P) -> seq<Notice<P>>, first: nat, now: nat, delta: nat)
    requires Sorted(q) && (|q| > 0 ==> q[0].time >= now)
    ensures var r := Delivered(q, reply, first, now, delta);
            Sorted(r) && forall i :: 0 <= i < |r| ==> r[i].time > now
  {
    hide Ready, Replies;
    var k := Ready(q, now);
    InsertAllKeeps(q[k..], Replies(q[..k], reply, first, now, delta), now);
  }

  lemma TimedStep<P>(q: seq<Event<P>>, notices: seq<Notice<P>>, i: nat, now: nat, delta: nat)
    requires i < |notices|
    ensures InsertAll(q, Timed(notices[..i + 1], now, delta))
         == InsertAll(InsertAll(q, Timed(notices[..i], now, delta)), Booked(notices[i], now, delta))
  {
    hide InsertAll, Booked;
    assert notices[..i + 1][..i] == notices[..i];
    InsertAllJoin(q, Timed(notices[..i], now, delta), Booked(notices[i], now, delta));
  }

  lemma NoNotices<P>(q: seq<Event<P>>, notices: seq<Notice<P>>, now: nat, delta: nat)
    ensures InsertAll(q, Timed(notices[..0], now, delta)) == q
  {}

  /** The list during a delivery that has handed out k of the events of q. */
  ghost function Midway<P>(q: seq<Event<P>>, k: nat, reply: (nat, P) -> seq<Notice<P>>, first: nat, now: nat,
                           delta: nat): seq<Event<P>>
    requires k <= |q|
  {
    InsertAll(q[k..], Replies(q[..k], reply, first, now, delta))
  }

  lemma DeliveryStart<P>(q: seq<Event<P>>, reply: (nat, P) -> seq<Notice<P>>, first: nat, now: nat, delta: nat)
    ensures Midway(q, 0, reply, first, now, delta) == q
    ensures Delivered(q, reply, first, now, delta) == Midway(q, Ready(q, now), reply, first, now, delta)
    ensures |q| == 0 ==> Ready(q, now) == 0
  {}

  /** The next event of the list that the delivery found is still in front. */
  lemma MidwayFront<P>(q: seq<Event<P>>, k: nat, reply: (nat, P) -> seq<Notice<P>>, first: nat, now: nat, delta: nat)
    requires k < |q| && q[k].time == now
    ensures Midway(q, k, reply, first, now, delta)
         == [q[k]] + InsertAll(q[k + 1..], Replies(q[..k], reply, first, now, delta))
  {
    hide InsertAll, Replies;
    assert q[k..] == [q[k]] + q[k + 1..];
    InsertAllBehind(q[k], q[k + 1..], Replies(q[..k], reply, first, now, delta));
  }

  lemma RepliesStep<P>(q: seq<Event<P>>, k: nat, reply: (nat, P) -> seq<Notice<P>>, first: nat, now: nat, delta: nat)
    requires k < |q|
    ensures Replies(q[..k + 1], reply, first, now, delta)
         == Replies(q[..k], reply, first, now, delta) + Timed(reply(first + k, q[k].payload), now, delta)
  {
    hide Timed;
    assert q[..k + 1][..k] == q[..k];
  }

  /** While the front of the list is due, it is the next event of the list that the delivery found. */
  lemma NextDelivery<P>(q: seq<Event<P>>, k: nat, reply: (nat, P) -> seq<Notice<P>>, first: nat, now: nat, delta: nat)
    requires k <= Ready(q, now)
    requires var q1 := Midway(q, k, reply, first, now, delta); |q1| > 0 && q1[0].time == now
    ensures k < Ready(q, now)
    ensures var q1 := Midway(q, k, reply, first, now, delta);
            && q1[0] == q[k]
            && InsertAll(q1[1..], Timed(reply(first + k, q[k].payload), now, delta))
               == Midway(q, k + 1, reply, first, now, delta)
  {
    hide InsertAll, Timed, Replies, Ready;
    var r := Replies(q[..k], reply, first, now, delta);
    if k == Ready(q, now) {
      InsertAllLater(q[k..], r, now);
    } else {
      MidwayFront(q, k, reply, first, now, delta);
      RepliesStep(q, k, reply, first, now, delta);
      InsertAllJoin(q[k + 1..], r, Timed(reply(first + k, q[k].payload), now, delta));
    }
  }

  /** When the front of the list is not due, all that was due has been delivered. */
  lemma LastDelivery<P>(q: seq<Event<P>>, k: nat, reply: (nat, P) -> seq<Notice<P>>, first: nat, now: nat, delta: nat)
    requires k <= Ready(q, now)
    requires var q1 := Midway(q, k, reply, first, now, delta); |q1| == 0 || q1[0].time != now
    ensures k == Ready(q, now)
  {
    hide Ready, Midway;
    if k < Ready(q, now) {
      MidwayFront(q, k, reply, first, now, delta);
    }
  }

  // ----- lists of nodes

  class Element<P> {
    var next: Element?<P>
    var p: P
    var t: nat
    var d: nat

    constructor (p: P)
      ensures t == 0
    {
      this.p := p;
      next := null;
      t := 0;
      d := 0;
    }
  }

  ghost function Head<P>(q: seq<Element<P>>, end: Element?<P>): Element?<P> {
    if |q| == 0 then end else q[0]
  }

  /** The node to which x leads as a member of the list q that is followed by end. */
  ghost function After<P>(q: seq<Element<P>>, x: Element<P>, end: Element?<P>): Element?<P> {
    if |q| == 0 then end
    else if q[0] == x then Head(q[1..], end)
    else After(q[1..], x, end)
  }

  ghost predicate NoDuplicates<T>(q: seq<T>) {
    forall i, j :: 0 <= i < j < |q| ==> q[i] != q[j]
  }

  lemma {:induction false} AfterAt<P>(q: seq<Element<P>>, i: nat, end: Element?<P>)
    requires i < |q| && NoDuplicates(q)
    ensures After(q, q[i], end) == Head(q[i + 1..], end)
  {
    if i > 0 {
      AfterAt(q[1..], i - 1, end);
    }
  }

  lemma {:induction false} AfterJoin<P>(a: seq<Element<P>>, b: seq<Element<P>>, x: Element<P>, end: Element?<P>)
    ensures After(a + b, x, end) == if x in a then After(a, x, Head(b, end)) else After(b, x, end)
  {
    if |a| == 0 {
      assert a + b == b;
    } else {
      assert (a + b)[1..] == a[1..] + b;
      AfterJoin(a[1..], b, x, end);
    }
  }

  /** Only the last node of a list leads out of it. */
  lemma {:induction false} AfterEnd<P>(q: seq<Element<P>>, x: Element<P>, u: Element?<P>, v: Element?<P>)
    requires NoDuplicates(q) && x in q
    ensures After(q, x, u) == if x == q[|q| - 1] then u else After(q, x, v)
  {
    if q[0] != x {
      AfterEnd(q[1..], x, u, v);
    }
  }

  /** Linking e in after the first k nodes changes the link of node k - 1 alone. */
  lemma AfterInsert<P>(q: seq<Element<P>>, k: nat, e: Element<P>, x: Element<P>, end: Element?<P>)
    requires k <= |q| && NoDuplicates(q) && e !in q && (x in q || x == e)
    ensures After(q[..k] + [e] + q[k..], x, end)
         == if x == e then Head(q[k..], end) else if k > 0 && x == q[k - 1] then e else After(q, x, end)
  {
    var a, b := q[..k], q[k..];
    assert q == a + b && a + [e] + b == a + ([e] + b) && ([e] + b)[1..] == b;
    AfterJoin(a, [e] + b, x, end);
    AfterJoin(a, b, x, end);
    if x in a {
      AfterEnd(a, x, e, Head(b, end));
    }
  }

  lemma InsertShape<P>(q: seq<Element<P>>, k: nat, e: Element<P>, end: Element?<P>)
    requires k <= |q| && NoDuplicates(q) && e !in q
    ensures NoDuplicates(q[..k] + [e] + q[k..])
    ensures forall x :: x in q[..k] + [e] + q[k..] <==> x in q || x == e
    ensures Head(q[..k] + [e] + q[k..], end) == if k == 0 then e else Head(q, end)
    ensures k > 0 ==> q[k - 1] in q
  {
    assert q == q[..k] + q[k..];
  }

  // ----- the implementation

  /** The time-ordered list: the nodes that hold events, and those kept for reuse. */
  class TimeOrderedList<P> {
    const nill: Element<P>
    const blank: P
    var empties: Element?<P>
    var list: Element<P>
    var size: nat
    ghost var live: seq<Element<P>>
    ghost var spare: seq<Element<P>>
    /** Every node allocated so far, apart from nill. */
    ghost var nodes: set<Element<P>>

    /** The live nodes and the spare nodes are two chains that share no node; with the loose ones they are all nodes. */
    ghost predicate Intact(loose: set<Element<P>>)
      reads this, nill, nodes
    {
      && nill !in nodes && nill.t == 0 && loose <= nodes
      && (forall x :: x in nodes ==> x in live || x in spare || x in loose)
      && (forall x :: x in live ==> x in nodes && x !in spare && x !in loose)
      && (forall x :: x in spare ==> x in nodes && x !in loose)
      && NoDuplicates(live) && NoDuplicates(spare)
      && (forall x :: x in live ==> x.next == After(live, x, nill))
      && (forall x :: x in spare ==> x.next == After(spare, x, null))
      && list == Head(live, nill) && empties == Head(spare, null)
      && size == |live|
    }

    /** No node is lost: each is either live or kept for reuse. */
    ghost predicate Valid()
      reads this, nill, nodes
    {
      Intact({})
    }

    ghost function EventOf(x: Element<P>): Event<P>
      reads x
    {
      Event(x.p, x.t, x.d)
    }

    ghost function Events(): (q: seq<Event<P>>)
      reads this, live
      ensures |q| == |live|
      ensures forall i :: 0 <= i < |q| ==> q[i] == EventOf(live[i])
    {
      seq(|live|, i requires 0 <= i < |live| reads live, this => EventOf(live[i]))
    }

    constructor (blank: P)
      ensures Valid() && Events() == [] && nodes == {} && fresh(nill)
    {
      var n := new Element(blank);
      nill := n;
      this.blank := blank;
      empties := null;
      list := n;
      size := 0;
      live := [];
      spare := [];
      nodes := {};
    }

    method DeleteTop()
      requires Valid()
      modifies this, nodes
      ensures Valid() && nodes == old(nodes)
      ensures Events() == Apply(Operation<P>.DeleteTop, old(Events()))
      ensures Events() == if old(Events()) == [] then [] else old(Events())[1..]
      ensures old(live) != [] ==> live == old(live)[1..] && spare == [old(live)[0]] + old(spare)
      ensures old(live) == [] ==> live == [] && spare == old(spare)
    {
      if list != nill {
        AfterAt(live, 0, nill);
        var e := list;
        list := list.next;
        e.next := empties;
        empties := e;
        size := size - 1;
        live := live[1..];
        assert ([e] + spare)[1..] == spare;
        spare := [e] + spare;
      }
    }

    /** A node for a new event: the first spare one, or a new one when there is none. */
    method Acquire() returns (e: Element<P>)
      requires Valid()
      modifies this
      ensures Intact({e}) && live == old(live) && Events() == old(Events())
      ensures old(spare) == [] ==> spare == [] && fresh(e) && nodes == old(nodes) + {e}
      ensures old(spare) != [] ==> spare == old(spare)[1..] && e == old(spare)[0] && nodes == old(nodes)
    {
      if empties == null {
        assert spare == [];
        var n := new Element(blank);
        n.next := null;
        empties := n;
        spare := [n];
        nodes := nodes + {n};
      }
      AfterAt(spare, 0, null);
      e := empties;
      empties := empties.next;
      spare := spare[1..];
    }

    /** Links the loose node e in between ancestor and current, the nodes k - 1 and k of the list. */
    method Link(e: Element<P>, ancestor: Element<P>, current: Element<P>, ghost k: nat)
      requires Intact({e}) && k <= |live|
      requires current == Head(live[k..], nill) && ancestor == if k == 0 then nill else live[k - 1]
      modifies this, nodes
      ensures Valid() && nodes == old(nodes) && spare == old(spare)
      ensures live == old(live)[..k] + [e] + old(live)[k..]
      ensures forall x :: x in live ==> EventOf(x) == old(EventOf(x))
    {
      hide After, NoDuplicates, Head;
      assert list == Head(live, nill);
      InsertShape(live, k, e, nill);
      if ancestor == nill {
        e.next := list;
        list := e;
      } else {
        e.next := current;
        ancestor.next := e;
      }
      size := size + 1;
      live := live[..k] + [e] + live[k..];
      forall x | x in live ensures x.next == After(live, x, nill) {
        AfterInsert(old(live), k, e, x, nill);
      }
    }

    /** The place of an event due at t: behind every event that is due no later. */
    method FindPlace(t: nat, ghost loose: set<Element<P>>)
      returns (ancestor: Element<P>, current: Element<P>, ghost k: nat)
      requires Intact(loose)
      ensures k == Place(Events(), t) <= |live|
      ensures current == Head(live[k..], nill) && ancestor == if k == 0 then nill else live[k - 1]
    {
      ghost var q := Events();
      ancestor := nill;
      current := list;
      k := 0;
      while current != nill && current.t <= t
        invariant 0 <= k <= |live| && current == Head(live[k..], nill)
        invariant ancestor == if k == 0 then nill else live[k - 1]
        invariant forall i :: 0 <= i < k ==> q[i].time <= t
        decreases |live| - k
      {
        AfterAt(live, k, nill);
        ancestor := current;
        current := current.next;
        k := k + 1;
      }
      PlaceIs(q, t, k);
    }

    /** Writes an event into a loose node. */
    method Fill(e: Element<P>, p: P, t: nat, delta: nat)
      requires Intact({e})
      modifies e
      ensures Intact({e}) && EventOf(e) == Event(p, t, delta)
      ensures Events() == old(Events())
    {
      e.p := p;
      e.t := t;
      e.d := delta;
    }

    method Insert(p: P, t: nat, delta: nat)
      requires Valid()
      modifies this, nodes
      ensures Valid() && Events() == Apply(Operation.Insert(Event(p, t, delta)), old(Events()))
      ensures Events() == Inserted(old(Events()), Event(p, t, delta))
      ensures multiset(Events()) == multiset(old(Events())) + multiset{Event(p, t, delta)}
      ensures old(spare) == [] ==> spare == [] && fresh(nodes - old(nodes))
      ensures old(spare) != [] ==> spare == old(spare)[1..] && nodes == old(nodes)
    {
      hide Intact, Valid, Head, Place, Events, EventOf;
      ghost var q := Events();
      var e := Acquire();
      Fill(e, p, t, delta);
      var ancestor, current, k := FindPlace(t, {e});
      Link(e, ancestor, current, k);
      assert Events() == Inserted(q, Event(p, t, delta));
      InsertAddsOne(q, Event(p, t, delta));
    }

    method Reset()
      requires Valid()
      modifies this, nodes
      ensures Valid() && Events() == [] && nodes == old(nodes)
      ensures size == 0 && forall x :: x in nodes ==> x in spare
    {
      while size != 0
        invariant Valid() && nodes == old(nodes)
        decreases size
      {
        DeleteTop();
      }
    }

    /** A notification after a delay; one without delay does not go through this list. */
    method Notify(p: P, delay: nat, now: nat, delta: nat)
      requires Valid()
      modifies this, nodes
      ensures Valid() && fresh(nodes - old(nodes))
      ensures Events() == InsertAll(old(Events()), Booked(Notice(p, delay), now, delta))
      ensures delay == 0 ==> Events() == old(Events())
      ensures delay > 0 ==> Events() == Inserted(old(Events()), Event(p, now + delay, delta))
      ensures delay > 0 ==> multiset(Events()) == multiset(old(Events())) + multiset{Event(p, now + delay, delta)}
    {
      hide Valid, Events, Inserted;
      if delay != 0 {
        Insert(p, now + delay, delta);
      }
    }

    /** What a callback does: it gives some notices. */
    method NotifyAll(notices: seq<Notice<P>>, now: nat, delta: nat)
      requires Valid()
      modifies this, nodes
      ensures Valid() && fresh(nodes - old(nodes))
      ensures Events() == InsertAll(old(Events()), Timed(notices, now, delta))
    {
      hide *;
      NoNotices(Events(), notices, now, delta);
      var i := 0;
      while i < |notices|
        invariant 0 <= i <= |notices| && Valid() && fresh(nodes - old(nodes))
        invariant Events() == InsertAll(old(Events()), Timed(notices[..i], now, delta))
      {
        var n := notices[i];
        Notify(n.payload, n.delay, now, delta);
        TimedStep(old(Events()), notices, i, now, delta);
        i := i + 1;
      }
      assert notices[..i] == notices;
    }

    /** What the fields say about the front of the list. */
    lemma Front()
      requires Valid()
      ensures size == |Events()| && (size != 0 ==> list.t == Events()[0].time)
    {
      if size != 0 {
        assert Events()[0] == EventOf(live[0]);
      }
    }

    /** The payload at the front goes to the callback and its node back to the spare ones. */
    method DeliverTop(reply: (nat, P) -> seq<Notice<P>>, number: nat, now: nat, delta: nat) returns (p: P)
      requires Valid() && size != 0 && list.t == now
      modifies this, nodes
      ensures Valid() && fresh(nodes - old(nodes))
      ensures p == old(Events())[0].payload
      ensures Events() == InsertAll(old(Events())[1..], Timed(reply(number, p), now, delta))
    {
      hide Timed, InsertAll;
      ghost var q := Events();
      p := list.p;
      assert q[0] == EventOf(live[0]);
      NotifyAll(reply(number, p), now, delta);
      DeleteTop();
      assert q == [q[0]] + q[1..];
      InsertAllBehind(q[0], q[1..], Timed(reply(number, p), now, delta));
    }

    /** Hands every event that is due now to the callback, in order; then asks to be woken for the next one. */
    method Deliver(reply: (nat, P) -> seq<Notice<P>>, first: nat, now: nat, delta: nat)
      returns (delivered: seq<P>, wake: bool, wait: int)
      requires Valid()
      modifies this, nodes
      ensures Valid() && fresh(nodes - old(nodes))
      ensures Events() == Delivered(old(Events()), reply, first, now, delta)
      ensures |delivered| == Ready(old(Events()), now)
      ensures forall i :: 0 <= i < |delivered| ==> delivered[i] == old(Events())[i].payload
      ensures wake == (Events() != []) && (wake ==> wait == Events()[0].time - now)
    {
      hide *;
      ghost var q := Events();
      var k := 0;
      Front();
      DeliveryStart(q, reply, first, now, delta);
      delivered := [];
      wake, wait := false, 0;
      if size == 0 {
        return;
      }
      var top := list.t;
      while size != 0 && top == now
        invariant Valid() && fresh(nodes - old(nodes)) && top == list.t
        invariant k <= Ready(q, now) && |delivered| == k
        invariant forall i :: 0 <= i < k ==> delivered[i] == q[i].payload
        invariant Events() == Midway(q, k, reply, first, now, delta)
        decreases |q| - k
      {
        Front();
        NextDelivery(q, k, reply, first, now, delta);
        var p := DeliverTop(reply, first + k, now, delta);
        delivered := delivered + [p];
        top := list.t;
        k := k + 1;
      }
      Front();
      LastDelivery(q, k, reply, first, now, delta);
      if size != 0 {
        wake, wait := true, top - now;
      }
    }
  }
}
