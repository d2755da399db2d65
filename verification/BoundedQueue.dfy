/** The closable bounded queue (bounded_queue.hpp) as a monitor: every public
    call runs under one mutex, so a run is an interleaving of lock-held
    sections.  A consumer blocked in `wait_dequeue` is either asleep or has been
    woken and waits to take the lock again and re-check its condition. */
module BoundedQueue {
  import opened Basics

  type Thread = nat

  /** The queue proper. */
  datatype Queue<T> = Queue(capacity: nat, items: seq<T>, closed: bool)

  datatype EnqueueResult = Enqueued | Full | Closed

  function TryEnqueue<T>(q: Queue<T>, x: T): (Queue<T>, EnqueueResult)
  {
    if q.closed then (q, Closed)
    else if |q.items| >= q.capacity then (q, Full)
    else (q.(items := q.items + [x]), Enqueued)
  }

  function PopFront<T>(q: Queue<T>): (Queue<T>, Option<T>)
  {
    if q.items == [] then (q, None) else (q.(items := q.items[1..]), Some(q.items[0]))
  }

  /** The queue with its waiting consumers, and ghost logs of what went in and out. */
  datatype Monitor<T> = Monitor(queue: Queue<T>, asleep: set<Thread>, woken: set<Thread>, entered: seq<T>, left: seq<T>)

  datatype Step<T> =
    | Enqueue(x: T, wakes: Option<Thread>)   // try_enqueue; notify_one picks any sleeper
    | TryDequeue
    | StartWait(consumer: Thread)            // wait_dequeue takes the lock for the first time
    | Resume(consumer: Thread)               // a woken consumer takes the lock again
    | SpuriousWake(consumer: Thread)
    | Close                                  // notify_all

  /** The predicate a blocked consumer waits for. */
  predicate Ready<T>(q: Queue<T>) { q.closed || q.items != [] }

  ghost predicate Enabled<T>(m: Monitor<T>, step: Step<T>)
  {
    match step
    case Enqueue(x, wakes) =>
      if TryEnqueue(m.queue, x).1 == Enqueued && m.asleep != {} then wakes.Some? && wakes.value in m.asleep
      else wakes == None
    case TryDequeue => true
    case StartWait(t) => t !in m.asleep && t !in m.woken
    case Resume(t) => t in m.woken
    case SpuriousWake(t) => t in m.asleep
    case Close => true
  }

  /** The value a consumer takes away, with the item logged. */
  function Taken<T>(m: Monitor<T>): (Monitor<T>, Option<T>)
  {
    var (q, x) := PopFront(m.queue);
    (m.(queue := q, left := if x.Some? then m.left + [x.value] else m.left), x)
  }

  /** A consumer that holds the lock leaves with an item, or with nothing if the
      queue is closed and empty, or goes to sleep. */
  function Waiting<T>(m: Monitor<T>, t: Thread): Monitor<T>
  {
    if Ready(m.queue) then Taken(m).0.(woken := m.woken - {t})
    else m.(asleep := m.asleep + {t}, woken := m.woken - {t})
  }

  function Apply<T>(m: Monitor<T>, step: Step<T>): Monitor<T>
  {
    match step
    case Enqueue(x, wakes) =>
      var (q, r) := TryEnqueue(m.queue, x);
      if r != Enqueued then m
      else
        var m' := m.(queue := q, entered := m.entered + [x]);
        if wakes.None? then m' else m'.(asleep := m.asleep - {wakes.value}, woken := m.woken + {wakes.value})
    case TryDequeue => Taken(m).0
    case StartWait(t) => Waiting(m, t)
    case Resume(t) => Waiting(m, t)
    case SpuriousWake(t) => m.(asleep := m.asleep - {t}, woken := m.woken + {t})
    case Close =>
      if m.queue.closed then m
      else m.(queue := m.queue.(closed := true), asleep := {}, woken := m.woken + m.asleep)
  }

  function Initial<T>(capacity: nat): Monitor<T>
  {
    Monitor(Queue(capacity, [], false), {}, {}, [], [])
  }

  ghost predicate Legal<T>(capacity: nat, steps: seq<Step<T>>)
  {
    steps == [] || (Legal(capacity, steps[..|steps| - 1])
                    && Enabled(Run(capacity, steps[..|steps| - 1]), steps[|steps| - 1]))
  }

  ghost function Run<T>(capacity: nat, steps: seq<Step<T>>): Monitor<T>
  {
    if steps == [] then Initial(capacity) else Apply(Run(capacity, steps[..|steps| - 1]), steps[|steps| - 1])
  }

  /** A sleeper means the queue is open and every item already has a woken consumer coming. */
  ghost predicate NoLostWakeup<T>(m: Monitor<T>)
  {
    m.asleep != {} ==> !m.queue.closed && |m.queue.items| <= |m.woken|
  }

  ghost predicate Inv<T>(m: Monitor<T>)
  {
    && |m.queue.items| <= m.queue.capacity
    && m.entered == m.left + m.queue.items
    && m.asleep !! m.woken
    && NoLostWakeup(m)
  }

  lemma StepKeepsInv<T>(m: Monitor<T>, step: Step<T>)
    requires Inv(m) && Enabled(m, step)
    ensures Inv(Apply(m, step)) && Apply(m, step).queue.capacity == m.queue.capacity
  {
    match step
    case Enqueue(x, wakes) =>
      assert m.entered + [x] == m.left + (m.queue.items + [x]);
    case TryDequeue => TakenKeepsLog(m);
    case StartWait(t) =>
      TakenKeepsLog(m);
      assert m.woken - {t} == m.woken;
    case Resume(t) =>
      TakenKeepsLog(m);
      assert |m.woken - {t}| == |m.woken| - 1;
    case SpuriousWake(t) =>
      assert |m.woken + {t}| == |m.woken| + 1;
    case Close =>
  }

  lemma TakenKeepsLog<T>(m: Monitor<T>)
    requires m.entered == m.left + m.queue.items
    ensures Taken(m).0.entered == Taken(m).0.left + Taken(m).0.queue.items
  {
    if m.queue.items != [] {
      assert m.left + m.queue.items == m.left + [m.queue.items[0]] + m.queue.items[1..];
    }
  }

  /** In every interleaving: no lost wakeup, first in first out with nothing
      lost or invented, and never more items than the capacity. */
  lemma {:induction false} EveryInterleaving<T>(capacity: nat, steps: seq<Step<T>>)
    requires Legal(capacity, steps)
    ensures Inv(Run(capacity, steps)) && Run(capacity, steps).queue.capacity == capacity
  {
    if steps != [] {
      EveryInterleaving(capacity, steps[..|steps| - 1]);
      StepKeepsInv(Run(capacity, steps[..|steps| - 1]), steps[|steps| - 1]);
    }
  }

  /** No deadlock: a consumer stays asleep only while the queue is open, and once
      no woken consumer is left to run it is also empty. */
  lemma SleepersHaveNothingToTake<T>(capacity: nat, steps: seq<Step<T>>)
    requires Legal(capacity, steps)
    requires Run(capacity, steps).asleep != {} && Run(capacity, steps).woken == {}
    ensures !Ready(Run(capacity, steps).queue)
  {
    EveryInterleaving(capacity, steps);
  }

  /** A blocking dequeue that returns does so with the oldest item, and returns
      nothing exactly when the queue is closed and empty. */
  lemma BlockingDequeueResult<T>(m: Monitor<T>, t: Thread)
    requires Ready(m.queue) && t !in m.asleep
    ensures t !in Waiting(m, t).asleep + Waiting(m, t).woken
    ensures Taken(m).1 == None <==> m.queue.closed && m.queue.items == []
    ensures Taken(m).1.Some? ==> Waiting(m, t).left == m.left + [m.queue.items[0]]
  {
  }

  /** Items leave in the order they entered, in every run. */
  lemma FirstInFirstOut<T>(capacity: nat, steps: seq<Step<T>>)
    requires Legal(capacity, steps)
    ensures Run(capacity, steps).left <= Run(capacity, steps).entered
  {
    EveryInterleaving(capacity, steps);
  }

  /** The three answers to an enqueue. */
  lemma EnqueueAnswer<T>(q: Queue<T>, x: T)
    ensures TryEnqueue(q, x).1 == Closed <==> q.closed
    ensures TryEnqueue(q, x).1 == Full <==> !q.closed && |q.items| >= q.capacity
  {
  }

  /** The items offered while the queue was open and had room, in order. */
  ghost function Offered<T>(capacity: nat, steps: seq<Step<T>>): seq<T>
  {
    if steps == [] then []
    else
      var front, step := steps[..|steps| - 1], steps[|steps| - 1];
      var q := Run(capacity, front).queue;
      Offered(capacity, front) + if step.Enqueue? && !q.closed && |q.items| < capacity then [step.x] else []
  }

  /** How many steps let a consumer take an item while there was one. */
  ghost function Departures<T>(capacity: nat, steps: seq<Step<T>>): nat
  {
    if steps == [] then 0
    else
      var front, step := steps[..|steps| - 1], steps[|steps| - 1];
      Departures(capacity, front) +
      if (step.TryDequeue? || step.StartWait? || step.Resume?) && Run(capacity, front).queue.items != [] then 1 else 0
  }

  /** In every interleaving: what entered is exactly what was offered to an open queue
      with room, as many left as consumers came while there was something, the queue is
      closed exactly once somebody closed it, and the contents are the difference. */
  lemma {:induction false} ContentsExactly<T>(capacity: nat, steps: seq<Step<T>>)
    requires Legal(capacity, steps)
    ensures var m, n := Run(capacity, steps), Departures(capacity, steps);
      && m.entered == Offered(capacity, steps) && n <= |m.entered|
      && m.left == m.entered[..n] && m.queue.items == m.entered[n..]
      && (m.queue.closed <==> Close in steps)
  {
    hide Apply, Enabled;
    EveryInterleaving(capacity, steps);
    if steps != [] {
      var front, step := steps[..|steps| - 1], steps[|steps| - 1];
      EveryInterleaving(capacity, front);
      ContentsExactly(capacity, front);
      assert steps == front + [step];
      LogStep(Run(capacity, front), step);
    }
    var m := Run(capacity, steps);
    assert m.entered[..|m.left|] == m.left && m.entered[|m.left|..] == m.queue.items;
  }

  lemma LogStep<T>(m: Monitor<T>, step: Step<T>)
    ensures var m' := Apply(m, step);
      && m'.entered == m.entered + (if step.Enqueue? && !m.queue.closed && |m.queue.items| < m.queue.capacity
                                    then [step.x] else [])
      && |m'.left| == |m.left| + (if (step.TryDequeue? || step.StartWait? || step.Resume?) && m.queue.items != []
                                  then 1 else 0)
      && (m'.queue.closed <==> m.queue.closed || step.Close?)
  {
  }

  /** A consumer that holds the lock goes to sleep exactly when the queue is open and empty. */
  lemma SleepsExactly<T>(m: Monitor<T>, t: Thread)
    requires t !in m.asleep
    ensures t in Waiting(m, t).asleep <==> !m.queue.closed && m.queue.items == []
    ensures Waiting(m, t).asleep - {t} == m.asleep && Waiting(m, t).woken == m.woken - {t}
  {
  }

  // ---- The queue object ----

  /** The queue with its condition variable's waiters; each method is one lock-held section. */
  class SharedQueue<T> {
    const capacity: nat
    var items: seq<T>
    var closed: bool
    var asleep: set<Thread>
    var woken: set<Thread>
    ghost var entered: seq<T>
    ghost var left: seq<T>

    ghost function State(): Monitor<T>
      reads this
    {
      Monitor(Queue(capacity, items, closed), asleep, woken, entered, left)
    }

    constructor (capacity: nat)
      requires capacity > 0
      ensures State() == Initial(capacity) && Inv(State())
    {
      this.capacity := capacity;
      items, closed, asleep, woken, entered, left := [], false, {}, {}, [], [];
    }

    method Enqueue(x: T) returns (r: EnqueueResult, ghost step: Step<T>)
      requires Inv(State())
      modifies this
      ensures Inv(State())
      ensures step.Enqueue? && step.x == x && Enabled(old(State()), step) && State() == Apply(old(State()), step)
      ensures r == TryEnqueue(old(State()).queue, x).1
    {
      step := Step.Enqueue(x, None);
      if closed {
        return Closed, step;
      }
      if |items| >= capacity {
        return Full, step;
      }
      items := items + [x];
      entered := entered + [x];
      if asleep != {} {
        var t :| t in asleep;
        asleep, woken := asleep - {t}, woken + {t};
        step := Step.Enqueue(x, Some(t));
      }
      StepKeepsInv(old(State()), step);
      return Enqueued, step;
    }

    method Dequeue() returns (r: Option<T>)
      requires Inv(State())
      modifies this
      ensures Inv(State()) && State() == Apply(old(State()), TryDequeue) && r == PopFront(old(State()).queue).1
    {
      StepKeepsInv(State(), TryDequeue);
      if items == [] {
        return None;
      }
      r := Some(items[0]);
      left := left + [items[0]];
      items := items[1..];
    }

    /** One attempt of a blocking consumer that holds the lock: first call or after waking. */
    method WaitDequeue(t: Thread) returns (returned: bool, r: Option<T>)
      requires Inv(State()) && t !in asleep
      modifies this
      ensures Inv(State()) && State() == Waiting(old(State()), t)
      ensures returned == Ready(old(State()).queue)
      ensures returned ==> r == Taken(old(State())).1
    {
      ghost var step := if t in woken then Resume(t) else StartWait(t);
      StepKeepsInv(State(), step);
      woken := woken - {t};
      if !closed && items == [] {
        asleep := asleep + {t};
        return false, None;
      }
      if items == [] {
        return true, None;
      }
      r := Some(items[0]);
      left := left + [items[0]];
      items := items[1..];
      return true, r;
    }

    method CloseQueue() returns (first: bool)
      requires Inv(State())
      modifies this
      ensures Inv(State()) && State() == Apply(old(State()), Close) && first == !old(closed)
    {
      if closed {
        return false;
      }
      closed := true;
      asleep, woken := {}, woken + asleep;
      return true;
    }
  }
}
