/** What the ready-to-run queues of the scheduler do to the processes put into them. */
module Scheduling {

  /** The processes waiting for the next delta cycle and those still to be run in this one, in order. */
  datatype Queues<P> = Queues(push: seq<P>, pop: seq<P>)

  datatype Operation<P> =
    | PushBack(process: P)
    | PushFront(process: P)
    | ExecuteNext(process: P)
    | Pop
    | Remove(process: P)
    | Toggle

  ghost function Without<P>(q: seq<P>, p: P): seq<P> {
    if |q| == 0 then [] else if q[0] == p then q[1..] else [q[0]] + Without(q[1..], p)
  }

  /** What an operation does, and the processes that it hands out to be run. */
  ghost function Apply<P>(op: Operation<P>, q: Queues<P>): (Queues<P>, seq<P>) {
    match op
    case PushBack(p) => (q.(push := q.push + [p]), [])
    case PushFront(p) => (q.(push := [p] + q.push), [])
    case ExecuteNext(p) => (q.(pop := [p] + q.pop), [])
    case Pop => if |q.pop| == 0 then (q, []) else (q.(pop := q.pop[1..]), [q.pop[0]])
    case Remove(p) => if p in q.push then (q.(push := Without(q.push, p)), []) else (q.(pop := Without(q.pop, p)), [])
    case Toggle => if |q.pop| == 0 then (Queues([], q.push), []) else (q, [])
  }

  /** How often p is queued. */
  ghost function Count<P>(q: Queues<P>, p: P): nat {
    multiset(q.push)[p] + multiset(q.pop)[p]
  }

  ghost predicate Inserts<P>(op: Operation<P>) {
    op.PushBack? || op.PushFront? || op.ExecuteNext?
  }

  /** A process is queued only when it is not already queued. */
  ghost predicate Legal<P>(op: Operation<P>, q: Queues<P>) {
    Inserts(op) ==> Count(q, op.process) == 0
  }

  ghost function Run<P>(ops: seq<Operation<P>>, q: Queues<P>): (Queues<P>, seq<P>) {
    if |ops| == 0 then (q, [])
    else
      var (q1, out1) := Run(ops[..|ops| - 1], q);
      var (q2, out2) := Apply(ops[|ops| - 1], q1);
      (q2, out1 + out2)
  }

  ghost predicate LegalRun<P>(ops: seq<Operation<P>>, q: Queues<P>) {
    |ops| == 0 || (LegalRun(ops[..|ops| - 1], q) && Legal(ops[|ops| - 1], Run(ops[..|ops| - 1], q).0))
  }

  /** How often the operations of a run put p into a queue. */
  ghost function Inserted<P>(ops: seq<Operation<P>>, p: P): nat {
    if |ops| == 0 then 0
    else
      var op := ops[|ops| - 1];
      Inserted(ops[..|ops| - 1], p) + if Inserts(op) && op.process == p then 1 else 0
  }

  /** How often the operations of a run take p out of a queue. */
  ghost function Removed<P>(ops: seq<Operation<P>>, q: Queues<P>, p: P): nat {
    if |ops| == 0 then 0
    else
      var op, q1 := ops[|ops| - 1], Run(ops[..|ops| - 1], q).0;
      Removed(ops[..|ops| - 1], q, p) + if op.Remove? && op.process == p && Count(q1, p) > 0 then 1 else 0
  }

  lemma {:induction false} WithoutCount<P>(q: seq<P>, x: P, p: P)
    ensures multiset(Without(q, x))[p] == multiset(q)[p] - if x == p && p in q then 1 else 0
  {
    if |q| > 0 {
      assert q == [q[0]] + q[1..];
      if q[0] != x {
        WithoutCount(q[1..], x, p);
      }
    }
  }

  /** One operation neither loses nor invents a process. */
  lemma StepConserves<P>(op: Operation<P>, q: Queues<P>, p: P)
    ensures Count(Apply(op, q).0, p) + multiset(Apply(op, q).1)[p]
            + (if op.Remove? && op.process == p && Count(q, p) > 0 then 1 else 0)
         == Count(q, p) + (if Inserts(op) && op.process == p then 1 else 0)
  {
    if op.Remove? {
      WithoutCount(q.push, op.process, p);
      WithoutCount(q.pop, op.process, p);
    } else if op.Pop? && |q.pop| > 0 {
      assert q.pop == [q.pop[0]] + q.pop[1..];
    }
  }

  lemma RunStep<P>(ops: seq<Operation<P>>, q: Queues<P>)
    requires |ops| > 0
    ensures Run(ops, q).0 == Apply(ops[|ops| - 1], Run(ops[..|ops| - 1], q).0).0
    ensures Run(ops, q).1 == Run(ops[..|ops| - 1], q).1 + Apply(ops[|ops| - 1], Run(ops[..|ops| - 1], q).0).1
  {
    hide Apply;
  }

  /** Over any run, every process put into a queue is still there, or was handed out, or was removed. */
  lemma {:induction false} Conservation<P>(ops: seq<Operation<P>>, q: Queues<P>, p: P)
    ensures Count(Run(ops, q).0, p) + multiset(Run(ops, q).1)[p] + Removed(ops, q, p) == Count(q, p) + Inserted(ops, p)
  {
    hide Apply;
    if |ops| > 0 {
      var rest, op := ops[..|ops| - 1], ops[|ops| - 1];
      Conservation(rest, q, p);
      StepConserves(op, Run(rest, q).0, p);
      RunStep(ops, q);
    }
  }

  /** No process is ever in the queues twice. */
  lemma {:induction false} NeverTwice<P>(ops: seq<Operation<P>>, q: Queues<P>, p: P)
    requires LegalRun(ops, q) && Count(q, p) <= 1
    ensures Count(Run(ops, q).0, p) <= 1
  {
    hide Apply, Count;
    if |ops| > 0 {
      var rest, op := ops[..|ops| - 1], ops[|ops| - 1];
      NeverTwice(rest, q, p);
      StepConserves(op, Run(rest, q).0, p);
      RunStep(ops, q);
    }
  }

  /** The processes pushed to the back in a run, in order. */
  ghost function Pushed<P>(ops: seq<Operation<P>>): seq<P> {
    if |ops| == 0 then []
    else
      var op := ops[|ops| - 1];
      Pushed(ops[..|ops| - 1]) + if op.PushBack? then [op.process] else []
  }

  lemma StepInOrder<P>(op: Operation<P>, q: Queues<P>)
    requires op.PushBack? || op.Pop? || op.Toggle?
    ensures var (q', out) := Apply(op, q);
            out + q'.pop + q'.push == q.pop + q.push + if op.PushBack? then [op.process] else []
  {
    if op.PushBack? {
      var q' := Apply(op, q).0;
      assert [] + q'.pop + q'.push == q.pop + q.push + [op.process];
    } else if op.Pop? && |q.pop| > 0 {
      assert [q.pop[0]] + q.pop[1..] == q.pop;
    }
  }

  lemma Regroup<P>(a: seq<P>, b: seq<P>, c: seq<P>, d: seq<P>)
    ensures (a + b) + c + d == a + (b + c + d)
  {}

  /** With pushes to the back, pops and toggles only, processes run in the order in which they were pushed. */
  lemma {:induction false} FirstInFirstOut<P>(ops: seq<Operation<P>>, q: Queues<P>)
    requires forall i :: 0 <= i < |ops| ==> ops[i].PushBack? || ops[i].Pop? || ops[i].Toggle?
    ensures var (q', out) := Run(ops, q);
            out + q'.pop + q'.push == q.pop + q.push + Pushed(ops)
  {
    if |ops| > 0 {
      var rest, op := ops[..|ops| - 1], ops[|ops| - 1];
      FirstInFirstOut(rest, q);
      var (q1, out1) := Run(rest, q);
      RunStep(ops, q);
      StepInOrder(op, q1);
      var added := if op.PushBack? then [op.process] else [];
      hide Apply, Run;
      var (q2, out2) := Apply(op, q1);
      Regroup(out1, out2, q2.pop, q2.push);
      Regroup(out1, q1.pop, q1.push, added);
      assert q.pop + q.push + Pushed(ops) == (q.pop + q.push + Pushed(rest)) + added;
    }
  }

  // ----- the order in which processes run

  lemma {:induction false} RunAppend<P>(a: seq<Operation<P>>, b: seq<Operation<P>>, q: Queues<P>)
    ensures Run(a + b, q).0 == Run(b, Run(a, q).0).0
    ensures Run(a + b, q).1 == Run(a, q).1 + Run(b, Run(a, q).0).1
  {
    hide Apply;
    if |b| == 0 {
      assert a + b == a;
    } else {
      var n := |b| - 1;
      assert (a + b)[..|a + b| - 1] == a + b[..n];
      RunAppend(a, b[..n], q);
      RunStep(a + b, q);
      RunStep(b, Run(a, q).0);
    }
  }

  lemma RunOne<P>(op: Operation<P>, q: Queues<P>)
    ensures Run([op], q) == Apply(op, q)
  {
    assert [op][..0] == [];
    RunStep([op], q);
    assert Run([op][..0], q) == (q, []) && [] + Apply(op, q).1 == Apply(op, q).1;
  }

  lemma RunNone<P>(q: Queues<P>)
    ensures Run([], q) == (q, [])
  {}

  ghost function PushBacks<P>(ps: seq<P>): seq<Operation<P>> {
    if |ps| == 0 then [] else PushBacks(ps[..|ps| - 1]) + [PushBack(ps[|ps| - 1])]
  }

  ghost function Pops<P>(k: nat): seq<Operation<P>> {
    if k == 0 then [] else Pops(k - 1) + [Pop]
  }

  lemma {:induction false} RunPushBacks<P>(ps: seq<P>, q: Queues<P>)
    ensures Run(PushBacks(ps), q) == (Queues(q.push + ps, q.pop), [])
  {
    if |ps| == 0 {
      assert q.push + ps == q.push;
    } else {
      var n := |ps| - 1;
      RunPushBacks(ps[..n], q);
      RunAppend(PushBacks(ps[..n]), [PushBack(ps[n])], q);
      RunOne(PushBack(ps[n]), Queues(q.push + ps[..n], q.pop));
      assert q.push + ps[..n] + [ps[n]] == q.push + ps;
    }
  }

  lemma PopOne<P>(q: Queues<P>)
    requires |q.pop| > 0
    ensures Run([Pop], q) == (Queues(q.push, q.pop[1..]), [q.pop[0]])
  {
    RunOne(Pop, q);
  }

  /** Pops hand out the pop list from the front. */
  lemma {:induction false} RunPops<P>(k: nat, q: Queues<P>)
    requires k <= |q.pop|
    ensures Run(Pops<P>(k), q) == (Queues(q.push, q.pop[k..]), q.pop[..k])
  {
    hide Run, Apply;
    if k == 0 {
      RunNone(q);
      assert q.pop[0..] == q.pop && q.pop[..0] == [];
    } else {
      var q1 := Queues(q.push, q.pop[k - 1..]);
      RunPops(k - 1, q);
      RunAppend(Pops<P>(k - 1), [Pop], q);
      PopOne(q1);
      assert q.pop[k - 1..][1..] == q.pop[k..] && q.pop[..k - 1] + [q.pop[k - 1]] == q.pop[..k];
    }
  }

  /** A toggle, when nothing is left to run, and as many pops as processes were pushed hand out the push list. */
  lemma ToggleAndPops<P>(q: Queues<P>)
    requires q.pop == []
    ensures Run([Toggle] + Pops<P>(|q.push|), q) == (Queues([], []), q.push)
  {
    var q1 := Queues([], q.push);
    RunAppend([Toggle], Pops<P>(|q.push|), q);
    RunOne(Toggle, q);
    RunPops(|q.push|, q1);
    assert q.push[..|q.push|] == q.push && [] + q.push == q.push;
  }

  /** One delta cycle: processes pushed to the back are handed out after a toggle, all of them and in order. */
  lemma DeltaCycle<P>(ps: seq<P>)
    ensures Run(PushBacks(ps) + ([Toggle] + Pops<P>(|ps|)), Queues([], [])) == (Queues([], []), ps)
  {
    var q: Queues<P> := Queues([], []);
    RunPushBacks(ps, q);
    assert [] + ps == ps;
    RunAppend(PushBacks(ps), [Toggle] + Pops<P>(|ps|), q);
    ToggleAndPops(Queues(ps, []));
  }

  /** A process pushed to the front runs first in the next cycle, before those pushed earlier. */
  lemma FrontRunsFirst<P>(p: P, q: Queues<P>)
    requires q.pop == []
    ensures Run([PushFront(p)] + ([Toggle] + Pops<P>(|q.push| + 1)), q) == (Queues([], []), [p] + q.push)
  {
    RunAppend([PushFront(p)], [Toggle] + Pops<P>(|q.push| + 1), q);
    RunOne(PushFront(p), q);
    ToggleAndPops(Queues([p] + q.push, []));
    assert [] + ([p] + q.push) == [p] + q.push;
  }

  /** A process to be executed next is the one handed out next, and the lists are then as they were. */
  lemma NextRunsNext<P>(p: P, q: Queues<P>)
    ensures Run([ExecuteNext(p)] + [Pop], q) == (q, [p])
  {
    RunAppend([ExecuteNext(p)], [Pop], q);
    RunOne(ExecuteNext(p), q);
    RunOne(Pop, Queues(q.push, [p] + q.pop));
    assert ([p] + q.pop)[1..] == q.pop;
  }

  /** While something is left to run, a toggle does nothing. */
  lemma ToggleWaits<P>(q: Queues<P>)
    requires q.pop != []
    ensures Run([Toggle], q) == (q, [])
  {
    RunOne(Toggle, q);
  }
}
