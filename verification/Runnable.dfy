/** The ready-to-run queues of the scheduler: linked lists whose link field is also the "is queued" flag. */
module Runnable {
  import opened Scheduling

  /** m_runnable_p: the null pointer, the end mark SC_NO_METHODS or SC_NO_THREADS, or the next process. */
  datatype Link = NotQueued | End | To(process: Process)

  class Process {
    var next: Link

    constructor ()
      ensures next == NotQueued
    {
      next := NotQueued;
    }
  }

  // ----- lists of processes

  /** The link that leads into a list. */
  ghost function First(q: seq<Process>): Link {
    if |q| == 0 then End else To(q[0])
  }

  /** The link that p carries as a member of the list: NotQueued if it is no member. */
  ghost function Successor(q: seq<Process>, p: Process): Link {
    if |q| == 0 then NotQueued
    else if q[0] == p then First(q[1..])
    else Successor(q[1..], p)
  }

  ghost predicate NoDuplicates(q: seq<Process>) {
    forall i, j :: 0 <= i < j < |q| ==> q[i] != q[j]
  }

  ghost predicate Disjoint(a: seq<Process>, b: seq<Process>) {
    forall p :: p in a ==> p !in b
  }

  lemma {:induction false} SuccessorMember(q: seq<Process>, p: Process)
    ensures Successor(q, p) != NotQueued <==> p in q
  {
    if |q| > 0 && q[0] != p {
      SuccessorMember(q[1..], p);
    }
  }

  lemma {:induction false} SuccessorAt(q: seq<Process>, i: nat)
    requires i < |q| && NoDuplicates(q)
    ensures Successor(q, q[i]) == First(q[i + 1..])
  {
    if i > 0 {
      SuccessorAt(q[1..], i - 1);
    }
  }

  lemma {:induction false} SuccessorSnoc(q: seq<Process>, p: Process, x: Process)
    requires NoDuplicates(q) && p !in q
    ensures Successor(q + [p], x)
         == if x == p then End else if |q| > 0 && x == q[|q| - 1] then To(p) else Successor(q, x)
  {
    if |q| > 0 {
      assert (q + [p])[1..] == q[1..] + [p];
      SuccessorSnoc(q[1..], p, x);
    } else {
      assert ([] + [p])[1..] == [];
    }
  }

  lemma {:induction false} WithoutAt(q: seq<Process>, i: nat)
    requires i < |q| && NoDuplicates(q)
    ensures Without(q, q[i]) == q[..i] + q[i + 1..]
  {
    if i > 0 {
      WithoutAt(q[1..], i - 1);
      assert [q[0]] + (q[1..][..i - 1] + q[1..][i..]) == q[..i] + q[i + 1..];
    }
  }

  lemma {:induction false} SuccessorJoin(a: seq<Process>, b: seq<Process>, x: Process)
    requires NoDuplicates(a)
    ensures Successor(a + b, x)
         == if |a| > 0 && x == a[|a| - 1] then First(b) else if x in a then Successor(a, x) else Successor(b, x)
  {
    if |a| == 0 {
      assert a + b == b;
    } else {
      assert (a + b)[1..] == a[1..] + b;
      SuccessorJoin(a[1..], b, x);
    }
  }

  lemma SuccessorCons(p: Process, q: seq<Process>, x: Process)
    ensures Successor([p] + q, x) == if x == p then First(q) else Successor(q, x)
  {
    assert ([p] + q)[1..] == q;
  }

  /** Taking out member i makes its predecessor carry its link and leaves all other links alone. */
  lemma SuccessorWithout(q: seq<Process>, i: nat, x: Process)
    requires i < |q| && NoDuplicates(q)
    ensures Successor(Without(q, q[i]), x)
         == if x == q[i] then NotQueued
            else if i > 0 && x == q[i - 1] then Successor(q, q[i])
            else Successor(q, x)
  {
    hide Successor, Without, First;
    var a, b := q[..i], q[i + 1..];
    WithoutAt(q, i);
    SuccessorAt(q, i);
    assert q == a + ([q[i]] + b);
    assert q[i] !in a && q[i] !in b;
    SuccessorMember(b, x);
    SuccessorMember(a, x);
    SuccessorJoin(a, b, x);
    SuccessorJoin(a, [q[i]] + b, x);
    SuccessorCons(q[i], b, x);
    FirstCons(q[i], b);
  }

  lemma FirstCons(p: Process, q: seq<Process>)
    ensures First([p] + q) == To(p)
  {}

  /** Without member i, the members keep their places before i and move up by one behind it. */
  lemma WithoutPlaces(q: seq<Process>, i: nat)
    requires i < |q| && NoDuplicates(q)
    ensures Without(q, q[i]) == q[..i] + q[i + 1..] && |Without(q, q[i])| == |q| - 1
    ensures forall k :: 0 <= k < |q| - 1 ==> Without(q, q[i])[k] == q[if k < i then k else k + 1]
  {
    WithoutAt(q, i);
    hide Without, NoDuplicates;
  }

  /** What taking member i out of a list leaves. */
  lemma Unlink(q: seq<Process>, i: nat)
    requires i < |q| && NoDuplicates(q)
    ensures Without(q, q[i]) == q[..i] + q[i + 1..]
    ensures NoDuplicates(Without(q, q[i])) && q[i] !in Without(q, q[i])
    ensures forall p :: p in Without(q, q[i]) ==> p in q
  {
    hide Without;
    WithoutPlaces(q, i);
    var r := Without(q, q[i]);
    forall p | p in r ensures p in q && p != q[i] {
      var k :| 0 <= k < |r| && r[k] == p;
      assert p == q[if k < i then k else k + 1];
    }
    NoDuplicatesWithout(q, i, r);
  }

  lemma NoDuplicatesWithout(q: seq<Process>, i: nat, r: seq<Process>)
    requires i < |q| && NoDuplicates(q) && |r| == |q| - 1
    requires forall k :: 0 <= k < |q| - 1 ==> r[k] == q[if k < i then k else k + 1]
    ensures NoDuplicates(r)
  {}

  lemma {:induction false} WithoutStranger(q: seq<Process>, p: Process)
    requires p !in q
    ensures Without(q, p) == q
  {
    if |q| > 0 {
      WithoutStranger(q[1..], p);
    }
  }

  /** r is q without its member p at place i. */
  ghost predicate TakenOut(q: seq<Process>, i: int, p: Process, r: seq<Process>)
    requires 0 <= i < |q|
  {
    q[i] == p && r == q[..i] + q[i + 1..]
  }

  /** p is in neither of the lists push' and pop', which are otherwise push and pop, in their order. */
  ghost predicate OnlyGone(push: seq<Process>, pop: seq<Process>, p: Process, push': seq<Process>, pop': seq<Process>) {
    && p !in push' && p !in pop'
    && (p !in push ==> push' == push)
    && (p !in pop ==> pop' == pop)
    && (p in push ==> exists i :: 0 <= i < |push| && TakenOut(push, i, p, push'))
    && (p in pop ==> exists i :: 0 <= i < |pop| && TakenOut(pop, i, p, pop'))
  }

  lemma WithoutMember(q: seq<Process>, p: Process)
    requires p in q && NoDuplicates(q)
    ensures p !in Without(q, p) && exists i :: 0 <= i < |q| && TakenOut(q, i, p, Without(q, p))
  {
    var i :| 0 <= i < |q| && q[i] == p;
    Unlink(q, i);
    assert TakenOut(q, i, p, Without(q, p));
  }

  lemma RemovedIs(q: Queues<Process>, p: Process)
    requires NoDuplicates(q.push) && NoDuplicates(q.pop) && Disjoint(q.push, q.pop)
    ensures Apply(Operation.Remove(p), q).0
         == if p in q.push then Queues(Without(q.push, p), q.pop) else Queues(q.push, Without(q.pop, p))
    ensures var r := Apply(Operation.Remove(p), q).0; OnlyGone(q.push, q.pop, p, r.push, r.pop)
  {
    hide TakenOut, Without, NoDuplicates;
    if p in q.push {
      WithoutMember(q.push, p);
    } else if p in q.pop {
      WithoutMember(q.pop, p);
    } else {
      WithoutStranger(q.pop, p);
    }
  }

  // ----- the queues

  /** The push list, which grows during a delta cycle, and the pop list, which is being run. */
  class RunQueue {
    const pushHead: Process
    var pushTail: Process
    var popHead: Link
    ghost var push: seq<Process>
    ghost var pop: seq<Process>
    /** Every process that may be queued here. */
    ghost var all: set<Process>

    ghost function State(): Queues<Process>
      reads this
    {
      Queues(push, pop)
    }

    ghost function Expected(p: Process): Link
      reads this
    {
      if p in push then Successor(push, p) else Successor(pop, p)
    }

    ghost predicate Valid()
      reads this, pushHead, all
    {
      && pushHead !in all
      && (forall p :: p in push ==> p in all) && (forall p :: p in pop ==> p in all)
      && NoDuplicates(push) && NoDuplicates(pop) && Disjoint(push, pop)
      && pushHead.next == First(push) && popHead == First(pop)
      && pushTail == (if |push| == 0 then pushHead else push[|push| - 1])
      && forall p :: p in all ==> p.next == Expected(p)
    }

    /** The link field is the flag that says whether a process is queued. */
    lemma QueuedFlag(p: Process)
      requires Valid() && p in all
      ensures p.next != NotQueued <==> p in push || p in pop
    {
      SuccessorMember(push, p);
      SuccessorMember(pop, p);
    }

    constructor (all: set<Process>)
      requires forall p :: p in all ==> p.next == NotQueued
      ensures Valid() && this.all == all && push == [] && pop == [] && fresh(pushHead)
    {
      var head := new Process();
      pushHead := head;
      pushTail := head;
      popHead := End;
      push := [];
      pop := [];
      this.all := all;
      new;
      pushHead.next := End;
    }

    /** A process created later may be queued as well. */
    ghost method Admit(p: Process)
      requires Valid() && p.next == NotQueued
      modifies this`all
      ensures Valid() && all == old(all) + {p}
    {
      assert p != pushHead;
      all := all + {p};
      SuccessorMember(push, p);
      SuccessorMember(pop, p);
    }

    method PushBack(p: Process)
      requires Valid() && p in all && p.next == NotQueued
      modifies this, pushHead, all
      ensures Valid() && all == old(all) && State() == Apply(Operation.PushBack(p), old(State())).0
      ensures push == old(push) + [p] && pop == old(pop)
    {
      QueuedFlag(p);
      p.next := End;
      pushTail.next := To(p);
      pushTail := p;
      push := push + [p];
      forall x | x in all ensures x.next == Expected(x) {
        SuccessorSnoc(old(push), p, x);
      }
    }

    method PushFront(p: Process)
      requires Valid() && p in all && p.next == NotQueued
      modifies this, pushHead, all
      ensures Valid() && all == old(all) && State() == Apply(Operation.PushFront(p), old(State())).0
      ensures push == [p] + old(push) && pop == old(pop)
    {
      QueuedFlag(p);
      p.next := pushHead.next;
      if pushTail == pushHead {
        pushTail.next := To(p);
        pushTail := p;
      } else {
        pushHead.next := To(p);
      }
      push := [p] + push;
      assert push[1..] == old(push);
    }

    method ExecuteNext(p: Process)
      requires Valid() && p in all && p.next == NotQueued
      modifies this, all
      ensures Valid() && all == old(all) && State() == Apply(Operation.ExecuteNext(p), old(State())).0
      ensures push == old(push) && pop == [p] + old(pop)
    {
      QueuedFlag(p);
      p.next := popHead;
      popHead := To(p);
      pop := [p] + pop;
      assert pop[1..] == old(pop);
    }

    method Pop() returns (r: Process?)
      requires Valid()
      modifies this, all
      ensures Valid() && all == old(all) && State() == Apply(Operation<Process>.Pop, old(State())).0
      ensures Apply(Operation<Process>.Pop, old(State())).1 == if r == null then [] else [r]
      ensures push == old(push) && (r == null <==> old(pop) == [])
      ensures if r == null then pop == [] else old(pop) == [r] + pop
      ensures r != null ==> r.next == NotQueued
    {
      if popHead != End {
        r := popHead.process;
        popHead := r.next;
        r.next := NotQueued;
        pop := pop[1..];
        forall x | x in all ensures x.next == Expected(x) {
          SuccessorMember(pop, x);
        }
      } else {
        r := null;
      }
    }

    /** Every process of the push list leads to the next; so does the head. */
    lemma PushLink(i: nat)
      requires Valid() && i <= |push|
      ensures ([pushHead] + push)[i].next == First(([pushHead] + push)[i + 1..])
    {
      var whole := [pushHead] + push;
      if i == 0 {
        assert whole[1..] == push;
      } else {
        SuccessorAt(push, i - 1);
        assert whole[i] == push[i - 1] && whole[i + 1..] == push[i..];
      }
    }

    lemma PopLink(i: nat)
      requires Valid() && i < |pop|
      ensures pop[i].next == First(pop[i + 1..])
    {
      SuccessorAt(pop, i);
      assert pop[i] !in push;
    }

    /** Searches the push list for p, and takes it out if it is there. */
    method RemoveFromPush(p: Process) returns (found: bool)
      requires Valid() && p in all
      modifies this, pushHead, all
      ensures Valid() && all == old(all) && found == (p in old(push))
      ensures pop == old(pop) && push == if found then Without(old(push), p) else old(push)
      ensures found ==> p.next == NotQueued
    {
      var prior := pushHead;
      var now := To(pushHead);
      ghost var i, whole := 0, [pushHead] + push;
      while now != End
        invariant Valid() && all == old(all) && State() == old(State())
        invariant 0 <= i <= |whole| && p !in whole[..i]
        invariant now == First(whole[i..])
        invariant prior == if i == 0 then pushHead else whole[i - 1]
        decreases |whole| - i
      {
        var x := now.process;
        assert x == whole[i];
        PushLink(i);
        if p == x {
          UnlinkPush(prior, p, i - 1);
          return true;
        }
        prior := x;
        now := x.next;
        i := i + 1;
      }
      assert whole[..i] == whole;
      assert forall x :: x in push ==> x in whole;
      return false;
    }

    method UnlinkPush(prior: Process, p: Process, ghost i: nat)
      requires Valid() && p in all && i < |push| && push[i] == p
      requires prior == if i == 0 then pushHead else push[i - 1]
      modifies this, pushHead, all
      ensures Valid() && all == old(all) && pop == old(pop) && push == Without(old(push), p) && p.next == NotQueued
    {
      hide Successor, Without;
      Unlink(push, i);
      SuccessorAt(push, i);
      prior.next := p.next;
      if p == pushTail {
        pushTail := prior;
      }
      p.next := NotQueued;
      push := Without(push, p);
      forall y | y in all ensures y.next == Expected(y) {
        SuccessorWithout(old(push), i, y);
        SuccessorMember(push, y);
        SuccessorMember(old(push), y);
        SuccessorMember(pop, y);
      }
    }

    /** Searches the pop list for p, and takes it out if it is there. */
    method RemoveFromPop(p: Process)
      requires Valid() && p in all && p !in push
      modifies this, all
      ensures Valid() && all == old(all) && push == old(push) && pop == Without(old(pop), p)
      ensures p.next == NotQueued
    {
      QueuedFlag(p);
      var prior: Process? := null;
      var now := popHead;
      ghost var i := 0;
      assert pop[0..] == pop;
      while now != End
        invariant Valid() && all == old(all) && State() == old(State())
        invariant 0 <= i <= |pop| && p !in pop[..i]
        invariant now == First(pop[i..])
        invariant prior == if i == 0 then null else pop[i - 1]
        decreases |pop| - i
      {
        var x := now.process;
        assert x == pop[i];
        PopLink(i);
        if p == x {
          UnlinkPop(prior, p, i);
          return;
        }
        prior := x;
        now := x.next;
        i := i + 1;
      }
      assert pop[..i] == pop;
      WithoutStranger(pop, p);
    }

    method UnlinkPop(prior: Process?, p: Process, ghost i: nat)
      requires Valid() && p in all && i < |pop| && pop[i] == p
      requires prior == if i == 0 then null else pop[i - 1]
      modifies this, all
      ensures Valid() && all == old(all) && push == old(push) && pop == Without(old(pop), p) && p.next == NotQueued
    {
      hide Successor, Without;
      Unlink(pop, i);
      SuccessorAt(pop, i);
      if prior != null {
        prior.next := p.next;
      } else {
        popHead := p.next;
      }
      p.next := NotQueued;
      pop := Without(pop, p);
      forall y | y in all ensures y.next == Expected(y) {
        SuccessorWithout(old(pop), i, y);
        SuccessorMember(pop, y);
        SuccessorMember(old(pop), y);
      }
    }

    /** Takes p out of the push list or, failing that, the pop list; p may then be queued again. */
    method Remove(p: Process)
      requires Valid() && p in all
      modifies this, pushHead, all
      ensures Valid() && all == old(all) && State() == Apply(Operation.Remove(p), old(State())).0
      ensures OnlyGone(old(push), old(pop), p, push, pop)
      ensures p.next == NotQueued
    {
      ghost var before := State();
      assert NoDuplicates(before.push) && NoDuplicates(before.pop) && Disjoint(before.push, before.pop);
      hide *;
      RemovedIs(before, p);
      var found := RemoveFromPush(p);
      if !found {
        RemoveFromPop(p);
      }
    }

    method Toggle()
      requires Valid()
      modifies this, pushHead
      ensures Valid() && all == old(all) && State() == Apply(Operation<Process>.Toggle, old(State())).0
      ensures if old(pop) == [] then pop == old(push) && push == [] else pop == old(pop) && push == old(push)
    {
      if popHead == End {
        popHead := pushHead.next;
        pushHead.next := End;
        pushTail := pushHead;
        pop, push := push, [];
        forall x | x in all ensures x.next == Expected(x) {
          SuccessorMember(pop, x);
        }
      }
    }

    ghost predicate Empty()
      reads this
    {
      push == [] && pop == []
    }

    /** What the head of the push list and the pop list say. */
    lemma EmptyLinks()
      requires Valid()
      ensures Empty() <==> pushHead.next == End && popHead == End
    {}
  }

  /** The scheduler's queues: one pair of lists for methods and one for threads. */
  class ScRunnable {
    const methods: RunQueue
    const threads: RunQueue

    ghost predicate Valid()
      reads this, methods, methods.pushHead, methods.all, threads, threads.pushHead, threads.all
    {
      && methods.Valid() && threads.Valid()
      && methods != threads && methods.pushHead != threads.pushHead && methods.all !! threads.all
      && methods.pushHead !in threads.all && threads.pushHead !in methods.all
    }

    constructor (methodProcesses: set<Process>, threadProcesses: set<Process>)
      requires methodProcesses !! threadProcesses
      requires forall p :: p in methodProcesses + threadProcesses ==> p.next == NotQueued
      ensures Valid() && methods.Empty() && threads.Empty() && fresh(methods) && fresh(threads)
      ensures methods.all == methodProcesses && threads.all == threadProcesses
    {
      methods := new RunQueue(methodProcesses);
      threads := new RunQueue(threadProcesses);
    }

    method IsEmpty() returns (r: bool)
      requires Valid()
      ensures r <==> methods.Empty() && threads.Empty()
    {
      methods.EmptyLinks();
      threads.EmptyLinks();
      r := methods.pushHead.next == End && methods.popHead == End
        && threads.pushHead.next == End && threads.popHead == End;
    }
  }
}
