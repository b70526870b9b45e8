/** Doubly linked lists. */
module Lists {

  class Node<T> {
    var value: T
    var prev: Node?<T>
    var next: Node?<T>

    constructor (value: T)
      ensures this.value == value && prev == null && next == null
    {
      this.value, prev, next := value, null, null;
    }
  }

  ghost function At<T>(nodes: seq<Node<T>>, i: int): Node?<T>
  {
    if 0 <= i < |nodes| then nodes[i] else null
  }

  ghost predicate Distinct<T>(nodes: seq<Node<T>>)
  {
    forall i, j | 0 <= i < j < |nodes| :: nodes[i] != nodes[j]
  }

  /** A node's links are its neighbours. */
  ghost predicate LinkedAt<T>(nodes: seq<Node<T>>, i: int)
    requires 0 <= i < |nodes|
    reads nodes
  {
    nodes[i].next == At(nodes, i + 1) && nodes[i].prev == At(nodes, i - 1)
  }

  ghost predicate Linked<T>(nodes: seq<Node<T>>)
    reads nodes
  {
    forall i | 0 <= i < |nodes| :: LinkedAt(nodes, i)
  }

  ghost function Values<T>(nodes: seq<Node<T>>): (r: seq<T>)
    reads nodes
    ensures |r| == |nodes| && forall i | 0 <= i < |r| :: r[i] == nodes[i].value
  {
    seq(|nodes|, i requires 0 <= i < |nodes| reads nodes => nodes[i].value)
  }

  class List<T> {
    var head: Node?<T>
    var tail: Node?<T>
    var len: nat
    /** The nodes from head to tail. */
    ghost var nodes: seq<Node<T>>

    /** The links follow the order of the nodes both ways, and every node is there once. */
    ghost predicate Valid()
      reads this, nodes
    {
      && len == |nodes| && head == At(nodes, 0) && tail == At(nodes, |nodes| - 1)
      && Distinct(nodes) && Linked(nodes)
    }

    ghost function Contents(): seq<T>
      reads this, nodes
    {
      Values(nodes)
    }

    constructor ()
      ensures Valid() && nodes == [] && Contents() == []
    {
      head, tail, len, nodes := null, null, 0, [];
    }

    method AddTail(value: T)
      requires Valid()
      modifies this, nodes
      ensures Valid() && Contents() == old(Contents()) + [value]
      ensures |nodes| == old(|nodes|) + 1 && nodes[..|nodes| - 1] == old(nodes) && fresh(nodes[|nodes| - 1])
    {
      var node := new Node(value);
      ghost var was := nodes;
      if len == 0 {
        head, tail := node, node;
      } else {
        node.prev := tail;
        tail.next := node;
        tail := node;
      }
      len := len + 1;
      nodes := was + [node];
      forall i | 0 <= i < |nodes| ensures LinkedAt(nodes, i) {
        assert i < |was| ==> old(LinkedAt(nodes, i)) && nodes[i] == was[i] && was[i] != node;
        assert i < |was| - 1 ==> was[i] != was[|was| - 1];
      }
    }

    /** Lead the links of its neighbours, or the ends of the list, around a node. */
    method Unlink(node: Node<T>, ghost i: nat)
      requires Valid() && i < |nodes| && nodes[i] == node
      modifies `head, `tail, nodes
      ensures Unlinked(nodes, i) && Values(nodes) == old(Values(nodes))
      ensures head == At(nodes, if i == 0 then 1 else 0)
      ensures tail == At(nodes, if i == |nodes| - 1 then |nodes| - 2 else |nodes| - 1)
    {
      assert LinkedAt(nodes, i);
      if node.prev != null {
        node.prev.next := node.next;
      } else {
        head := node.next;
      }
      if node.next != null {
        node.next.prev := node.prev;
      } else {
        tail := node.prev;
      }
      forall k | 0 <= k < |nodes| && k != i ensures AroundAt(nodes, i, k) {
        assert old(LinkedAt(nodes, k));
      }
    }

    /** Take node `i`, given by itself, out of the list. */
    method DelNode(node: Node<T>, ghost i: nat)
      requires Valid() && i < |nodes| && nodes[i] == node
      modifies this, nodes
      ensures Valid() && nodes == old(nodes)[..i] + old(nodes)[i + 1..]
      ensures Contents() == old(Contents())[..i] + old(Contents())[i + 1..]
    {
      hide Linked, Unlinked, Distinct;
      Unlink(node, i);
      Relinked(nodes, i);
      len := len - 1;
      nodes := nodes[..i] + nodes[i + 1..];
    }
  }

  /** A node's links lead around node `i`. */
  ghost predicate AroundAt<T>(nodes: seq<Node<T>>, i: nat, k: int)
    requires 0 <= k < |nodes|
    reads nodes
  {
    && nodes[k].next == At(nodes, if k == i - 1 then i + 1 else k + 1)
    && nodes[k].prev == At(nodes, if k == i + 1 then i - 1 else k - 1)
  }

  ghost predicate Unlinked<T>(nodes: seq<Node<T>>, i: nat)
    reads nodes
  {
    forall k | 0 <= k < |nodes| && k != i :: AroundAt(nodes, i, k)
  }

  lemma Relinked<T>(was: seq<Node<T>>, i: nat)
    requires i < |was| && Distinct(was) && Unlinked(was, i)
    ensures var now := was[..i] + was[i + 1..];
            && Distinct(now) && Linked(now) && Values(now) == Values(was)[..i] + Values(was)[i + 1..]
            && At(now, 0) == At(was, if i == 0 then 1 else 0)
            && At(now, |now| - 1) == At(was, if i == |was| - 1 then |was| - 2 else |was| - 1)
  {
    var now := was[..i] + was[i + 1..];
    assert forall j | 0 <= j < |now| :: now[j] == was[if j < i then j else j + 1];
    forall j | 0 <= j < |now| ensures LinkedAt(now, j) {
      var k := if j < i then j else j + 1;
      assert now[j] == was[k] && AroundAt(was, i, k);
      assert At(now, j + 1) == At(was, if k == i - 1 then i + 1 else k + 1);
      assert At(now, j - 1) == At(was, if k == i + 1 then i - 1 else k - 1);
    }
  }
}

/** The jobs of one kind, as the threads share them under their lock. */
module BioQueues {
  import opened Lists

  class JobQueue<J> {
    const jobs: List<J>
    var pending: nat

    ghost predicate Valid()
      reads this, jobs, jobs.nodes
    {
      jobs.Valid() && pending == jobs.len
    }

    ghost function Contents(): seq<J>
      reads this, jobs, jobs.nodes
    {
      jobs.Contents()
    }

    constructor ()
      ensures Valid() && Contents() == [] && fresh(jobs)
    {
      jobs := new List();
      pending := 0;
    }

    /** Queue a job. */
    method Create(job: J)
      requires Valid()
      modifies this, jobs, jobs.nodes
      ensures Valid() && Contents() == old(Contents()) + [job] && pending == old(pending) + 1
      ensures old(|jobs.nodes|) > 0 ==> jobs.nodes[0] == old(jobs.nodes[0])
    {
      jobs.AddTail(job);
      pending := pending + 1;
    }

    /** The first job, left in its place while it is worked on. */
    method First() returns (node: Node?<J>)
      requires Valid()
      ensures node == null <==> Contents() == []
      ensures node != null ==> |jobs.nodes| > 0 && node == jobs.nodes[0] && node.value == Contents()[0]
    {
      node := jobs.head;
    }

    /** Take a finished job out. */
    method Remove(node: Node<J>)
      requires Valid() && |jobs.nodes| > 0 && node == jobs.nodes[0]
      modifies this, jobs, jobs.nodes
      ensures Valid() && Contents() == old(Contents())[1..] && pending == old(pending) - 1
    {
      jobs.DelNode(node, 0);
      pending := pending - 1;
    }
  }
}

/** Threads that queue jobs and one that works them off, step by step. */
module Bio {

  /** The worker looks for a job, sleeps until there is one, has one to do, or has done it. */
  datatype Worker<J> = Looking | Asleep | Has(job: J) | Did(job: J)

  /** The queue and its counter, as the lock protects them; every job ever queued, worked off
    * and taken out, in order. */
  datatype State<J> = State(
    queue: seq<J>,
    pending: nat,
    worker: Worker<J>,
    queued: seq<J>,
    done: seq<J>)

  /** Queueing holds the lock throughout. The worker holds it to look and to take out; the
    * work itself is done without it. */
  datatype Step<J> = Create(job: J) | Look | Work | TakeOut

  function Start<J>(): State<J>
  {
    State([], 0, Looking, [], [])
  }

  predicate Enabled<J>(s: State<J>, step: Step<J>)
  {
    match step
    case Create(job) => true
    case Look => s.worker.Looking?
    case Work => s.worker.Has?
    case TakeOut => s.worker.Did? && |s.queue| > 0
  }

  function Next<J>(s: State<J>, step: Step<J>): State<J>
    requires Enabled(s, step)
  {
    match step
    case Create(job) =>
      s.(queue := s.queue + [job], pending := s.pending + 1, queued := s.queued + [job],
         worker := if s.worker.Asleep? then Looking else s.worker)
    case Look => s.(worker := if |s.queue| == 0 then Asleep else Has(s.queue[0]))
    case Work => s.(worker := Did(s.worker.job), done := s.done + [s.worker.job])
    case TakeOut => s.(queue := s.queue[1..], pending := if s.pending > 0 then s.pending - 1 else 0, worker := Looking)
  }

  /** Done jobs are the first of those queued; the rest are in the queue, behind a job that
    * is done and not yet taken out; the worker sleeps only on an empty queue. */
  ghost predicate Inv<J>(s: State<J>)
  {
    && s.pending == |s.queue|
    && (s.worker.Has? || s.worker.Did? ==> |s.queue| > 0 && s.worker.job == s.queue[0])
    && (s.worker.Asleep? ==> s.queue == [])
    && s.queued == s.done + (if s.worker.Did? && |s.queue| > 0 then s.queue[1..] else s.queue)
  }

  lemma StepInv<J>(s: State<J>, step: Step<J>)
    requires Inv(s) && Enabled(s, step)
    ensures Inv(Next(s, step))
  {
    match step
    case Create(job) =>
      assert (s.queue + [job])[0..] == s.queue + [job];
      if s.worker.Did? {
        assert (s.queue + [job])[1..] == s.queue[1..] + [job];
        assert s.done + (s.queue[1..] + [job]) == s.done + s.queue[1..] + [job];
      } else {
        assert s.done + (s.queue + [job]) == s.done + s.queue + [job];
      }
    case Look =>
    case Work =>
      assert s.queue == [s.queue[0]] + s.queue[1..];
      assert s.done + ([s.queue[0]] + s.queue[1..]) == s.done + [s.queue[0]] + s.queue[1..];
    case TakeOut =>
  }

  ghost predicate CanRun<J>(s: State<J>, steps: seq<Step<J>>)
    decreases |steps|
  {
    |steps| == 0 || (Enabled(s, steps[0]) && CanRun(Next(s, steps[0]), steps[1..]))
  }

  ghost function Run<J>(s: State<J>, steps: seq<Step<J>>): State<J>
    requires CanRun(s, steps)
    decreases |steps|
  {
    if |steps| == 0 then s else Run(Next(s, steps[0]), steps[1..])
  }

  lemma {:induction false} RunInv<J>(s: State<J>, steps: seq<Step<J>>)
    requires Inv(s) && CanRun(s, steps)
    ensures Inv(Run(s, steps))
    decreases |steps|
  {
    hide Inv, Next, Enabled;
    if |steps| > 0 {
      StepInv(s, steps[0]);
      RunInv(Next(s, steps[0]), steps[1..]);
    }
  }

  /** The worker takes up the oldest job, and without one it sleeps until one comes. */
  lemma TakesUp<J>(s: State<J>, job: J)
    requires Inv(s)
    ensures s.worker.Looking? ==> Next(s, Look).worker == if |s.queue| > 0 then Has(s.queue[0]) else Asleep
    ensures s.worker.Has? ==> Next(s, Work).done == s.done + [s.queue[0]]
    ensures s.worker.Asleep? ==> Next(s, Create(job)).worker.Looking?
  {
  }

  lemma RunStep<J>(s: State<J>, step: Step<J>, rest: seq<Step<J>>)
    requires Enabled(s, step) && CanRun(Next(s, step), rest)
    ensures CanRun(s, [step] + rest) && Run(s, [step] + rest) == Run(Next(s, step), rest)
  {
    hide Next, Enabled;
    assert ([step] + rest)[1..] == rest;
  }

  /** What the worker does next while jobs wait. */
  function WorkersStep<J>(s: State<J>): Step<J>
  {
    match s.worker
    case Looking => Look
    case Asleep => Look
    case Has(_) => Work
    case Did(_) => TakeOut
  }

  /** Left alone, the worker does every job that was queued and takes it out, in three steps for
    * each. */
  lemma {:induction false} WorksOff<J>(s: State<J>) returns (steps: seq<Step<J>>)
    requires Inv(s)
    ensures (forall i | 0 <= i < |steps| :: !steps[i].Create?) && CanRun(s, steps)
    ensures |steps| == 3 * |s.queue| - if s.worker.Did? then 2 else if s.worker.Has? then 1 else 0
    ensures var t := Run(s, steps); t.queue == [] && t.done == t.queued == s.queued && t.pending == 0
    decreases |s.queue|, if s.worker.Did? then 0 else if s.worker.Has? then 1 else 2
  {
    if |s.queue| == 0 {
      steps := [];
      assert s.done + [] == s.done;
    } else {
      var step := WorkersStep(s);
      StepInv(s, step);
      var rest := WorksOff(Next(s, step));
      steps := [step] + rest;
      RunStep(s, step, rest);
    }
  }

  /** However queueing and working interleave, jobs are done once each and in the order they
    * were queued; a counter read as zero means that all of them are done, and one read as
    * `n` that all but the last `n` are; and there is always something the worker can do while
    * a job waits. */
  lemma OnceAndInOrder<J>(steps: seq<Step<J>>)
    requires CanRun(Start(), steps)
    ensures var s := Run(Start<J>(), steps);
            && s.done <= s.queued
            && (s.pending == 0 ==> s.done == s.queued)
            && |s.queued| - s.pending <= |s.done|
            && (s.done != s.queued ==> Enabled(s, Look) || Enabled(s, Work) || Enabled(s, TakeOut))
  {
    RunInv(Start<J>(), steps);
  }
}
