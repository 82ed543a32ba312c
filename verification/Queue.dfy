/**
  * packet_queue.c as several threads use it. Every call tests the queue in one critical section and changes it in
  * another, so the test may be out of date when the change is made. The threads' steps interleave in any order.
  */
module Queue {

  const PKT_QUEUE_MAX := 16

  /** The part of a message that matters here. */
  datatype Packet = Packet(sock: int, payload: seq<bv8>)

  /** The list of a queue and its counter, which is a uint8_t. */
  datatype Items = Items(list: seq<Packet>, size: nat)

  /** Between its two critical sections an enqueuing thread holds a packet, a dequeuing one a promise. */
  datatype Producer = Idle | Holding(packet: Packet)

  datatype State = State(items: Items, producers: seq<Producer>, ready: seq<bool>,
                         accepted: seq<Packet>, delivered: seq<Packet>, broken: bool)

  datatype Step =
    | TestFull(thread: nat, packet: Packet)
    | Insert(thread: nat)
    | TestEmpty(thread: nat)
    | Remove(thread: nat)

  // ---------------------------------------------------------------- the two critical sections that change the queue

  function Inserted(q: Items, p: Packet): Items {
    Items(q.list + [p], (q.size + 1) % 256)
  }

  function Removed(q: Items): Items
    requires q.list != []
  {
    Items(q.list[1..], (q.size + 255) % 256)
  }

  predicate Full(q: Items) {
    q.size == PKT_QUEUE_MAX
  }

  predicate Empty(q: Items) {
    q.size == 0
  }

  /** The counter is the length as long as that fits. */
  predicate Counted(q: Items) {
    q.size == |q.list| % 256
  }

  // ---------------------------------------------------------------- steps and runs

  /** A queue just initialised, with some threads on either side. */
  function Start(producers: nat, consumers: nat): State {
    State(Items([], 0), seq(producers, _ => Idle), seq(consumers, _ => false), [], [], false)
  }

  /** A thread that is not there, or not at that point of its call, makes no step; nor does a broken program. */
  function Next(s: State, step: Step): State {
    if s.broken then s
    else match step
    case TestFull(i, p) =>
      if i < |s.producers| && s.producers[i].Idle? && !Full(s.items) then
        s.(producers := s.producers[i := Holding(p)])
      else s
    case Insert(i) =>
      if i < |s.producers| && s.producers[i].Holding? then
        var p := s.producers[i].packet;
        s.(items := Inserted(s.items, p), producers := s.producers[i := Idle], accepted := s.accepted + [p])
      else s
    case TestEmpty(j) =>
      if j < |s.ready| && !s.ready[j] && !Empty(s.items) then s.(ready := s.ready[j := true]) else s
    case Remove(j) =>
      if j < |s.ready| && s.ready[j] then
        if s.items.list == [] then s.(broken := true)
        else s.(items := Removed(s.items), ready := s.ready[j := false], delivered := s.delivered + [s.items.list[0]])
      else s
  }

  function Run(s: State, steps: seq<Step>): State
    decreases |steps|
  {
    if steps == [] then s else Run(Next(s, steps[0]), steps[1..])
  }

  lemma {:induction false} RunJoins(s: State, a: seq<Step>, b: seq<Step>)
    ensures Run(s, a + b) == Run(Run(s, a), b)
    decreases |a|
  {
    hide Next;
    if a == [] {
      assert a + b == b;
    } else {
      assert (a + b)[1..] == a[1..] + b;
      RunJoins(Next(s, a[0]), a[1..], b);
    }
  }

  // ---------------------------------------------------------------- nothing is lost, whatever the threads

  /** The delivered packets followed by the queued ones are the accepted ones, in order. */
  predicate Conserves(s: State) {
    s.delivered + s.items.list == s.accepted && Counted(s.items)
  }

  lemma {:induction false} NextConserves(s: State, step: Step)
    requires Conserves(s)
    ensures Conserves(Next(s, step))
    ensures |Next(s, step).producers| == |s.producers| && |Next(s, step).ready| == |s.ready|
  {
    match step
    case TestFull(i, p) =>
    case Insert(i) =>
      if !s.broken && i < |s.producers| && s.producers[i].Holding? {
        var p := s.producers[i].packet;
        assert s.delivered + (s.items.list + [p]) == s.accepted + [p];
      }
    case TestEmpty(j) =>
    case Remove(j) =>
      if !s.broken && j < |s.ready| && s.ready[j] && s.items.list != [] {
        var p := s.items.list[0];
        assert s.items.list == [p] + s.items.list[1..];
        assert s.delivered + [p] + s.items.list[1..] == s.accepted;
      }
  }

  /** On every run of any number of threads the queue is first in, first out. */
  lemma {:induction false} RunConserves(s: State, steps: seq<Step>)
    requires Conserves(s)
    ensures Conserves(Run(s, steps))
    ensures |Run(s, steps).producers| == |s.producers| && |Run(s, steps).ready| == |s.ready|
    decreases |steps|
  {
    hide Next, Conserves;
    if steps != [] {
      NextConserves(s, steps[0]);
      RunConserves(Next(s, steps[0]), steps[1..]);
    }
  }

  // ---------------------------------------------------------------- one producer: the bound

  /** A single producer that passed its test finds a free place. */
  predicate Bounded(s: State) {
    Counted(s.items) && |s.items.list| <= PKT_QUEUE_MAX &&
    (s.producers != [] && s.producers[0].Holding? ==> |s.items.list| < PKT_QUEUE_MAX)
  }

  lemma {:induction false} NextBounded(s: State, step: Step)
    requires Bounded(s) && |s.producers| <= 1
    ensures Bounded(Next(s, step)) && |Next(s, step).producers| == |s.producers|
  {
  }

  lemma {:induction false} RunBounded(s: State, steps: seq<Step>)
    requires Bounded(s) && |s.producers| <= 1
    ensures Bounded(Run(s, steps))
    decreases |steps|
  {
    hide Next, Bounded;
    if steps != [] {
      NextBounded(s, steps[0]);
      RunBounded(Next(s, steps[0]), steps[1..]);
    }
  }

  // ---------------------------------------------------------------- one consumer: no removal from an empty list

  /** A single consumer that passed its test finds a packet. */
  predicate Promised(s: State) {
    Counted(s.items) && !s.broken && (s.ready != [] && s.ready[0] ==> s.items.list != [])
  }

  lemma {:induction false} NextPromised(s: State, step: Step)
    requires Promised(s) && |s.ready| <= 1
    ensures Promised(Next(s, step)) && |Next(s, step).ready| == |s.ready|
  {
    hide Inserted, Removed, Counted;
    EmptyCounter(s.items);
    match step
    case TestFull(i, p) =>
    case Insert(i) =>
      if i < |s.producers| && s.producers[i].Holding? {
        InsertedCounted(s.items, s.producers[i].packet);
      }
    case TestEmpty(j) =>
    case Remove(j) =>
      if s.items.list != [] {
        RemovedCounted(s.items);
      }
  }

  lemma {:induction false} EmptyCounter(q: Items)
    requires Counted(q)
    ensures q.list == [] ==> Empty(q)
  {
  }

  lemma {:induction false} InsertedCounted(q: Items, p: Packet)
    requires Counted(q)
    ensures Counted(Inserted(q, p)) && Inserted(q, p).list != []
  {
  }

  lemma {:induction false} RemovedCounted(q: Items)
    requires Counted(q) && q.list != []
    ensures Counted(Removed(q))
  {
    var n := |q.list|;
    if n % 256 == 0 {
      assert (n - 1) % 256 == 255;
    } else {
      assert (n - 1) % 256 == n % 256 - 1;
    }
  }

  lemma {:induction false} RunPromised(s: State, steps: seq<Step>)
    requires Promised(s) && |s.ready| <= 1
    ensures Promised(Run(s, steps))
    decreases |steps|
  {
    hide Next, Promised;
    if steps != [] {
      NextPromised(s, steps[0]);
      RunPromised(Next(s, steps[0]), steps[1..]);
    }
  }

  // ---------------------------------------------------------------- two producers: no bound at all

  /** Two producers between calls, and the counter not at the one value that the test for a full queue knows. */
  predicate Between(s: State) {
    |s.producers| >= 2 && s.producers[0].Idle? && s.producers[1].Idle? && !s.broken &&
    Counted(s.items) && !Full(s.items)
  }

  /** One packet more, or two at once where one would make the queue full. */
  function Grow(s: State, p: Packet): seq<Step> {
    if s.items.size == PKT_QUEUE_MAX - 1 then [TestFull(0, p), TestFull(1, p), Insert(0), Insert(1)]
    else [TestFull(0, p), Insert(0)]
  }

  lemma {:induction false} Grows(s: State, p: Packet)
    requires Between(s)
    ensures Between(Run(s, Grow(s, p))) && |Run(s, Grow(s, p)).items.list| > |s.items.list|
  {
    var a := Next(s, TestFull(0, p));
    if s.items.size == PKT_QUEUE_MAX - 1 {
      var b := Next(a, TestFull(1, p));
      var c := Next(b, Insert(0));
      var d := Next(c, Insert(1));
      RunFour(s, TestFull(0, p), TestFull(1, p), Insert(0), Insert(1));
    } else {
      var b := Next(a, Insert(0));
      RunTwo(s, TestFull(0, p), Insert(0));
    }
  }

  lemma {:induction false} RunTwo(s: State, a: Step, b: Step)
    ensures Run(s, [a, b]) == Next(Next(s, a), b)
  {
    hide Next;
    assert [a, b][1..] == [b];
    assert [b][1..] == [];
    var t := Next(s, a);
    assert Run(s, [a, b]) == Run(t, [b]);
    assert Run(t, [b]) == Run(Next(t, b), []);
  }

  lemma {:induction false} RunFour(s: State, a: Step, b: Step, c: Step, d: Step)
    ensures Run(s, [a, b, c, d]) == Next(Next(Next(Next(s, a), b), c), d)
  {
    hide Next;
    assert [a, b, c, d] == [a, b] + [c, d];
    RunJoins(s, [a, b], [c, d]);
    RunTwo(s, a, b);
    RunTwo(Next(Next(s, a), b), c, d);
  }

  /** With two producers the queue grows past any length: its counter misses 16 and then wraps. */
  lemma {:induction false} TwoProducersUnbounded(s: State, p: Packet, n: nat) returns (steps: seq<Step>)
    requires Between(s)
    ensures Between(Run(s, steps)) && |Run(s, steps).items.list| >= n
    decreases n
  {
    hide Next, Between;
    if n == 0 {
      steps := [];
    } else {
      var before := TwoProducersUnbounded(s, p, n - 1);
      var t := Run(s, before);
      Grows(t, p);
      steps := before + Grow(t, p);
      RunJoins(s, before, Grow(t, p));
    }
  }

  /** Started empty, the queue stays within 16 packets on every run exactly when there is at most one producer. */
  lemma {:induction false} BoundedIff(producers: nat, consumers: nat)
    ensures (forall steps :: |Run(Start(producers, consumers), steps).items.list| <= 16) <==> producers <= 1
  {
    hide Next;
    var s := Start(producers, consumers);
    if producers <= 1 {
      forall steps
        ensures |Run(s, steps).items.list| <= PKT_QUEUE_MAX
      {
        RunBounded(s, steps);
      }
    } else {
      var steps := TwoProducersUnbounded(s, Packet(0, []), PKT_QUEUE_MAX + 1);
      assert |Run(s, steps).items.list| > PKT_QUEUE_MAX;
    }
  }

  // ---------------------------------------------------------------- two consumers: removal from an empty list

  lemma {:induction false} TwoConsumersBreak(producers: nat, consumers: nat, p: Packet) returns (steps: seq<Step>)
    requires producers >= 1 && consumers >= 2
    ensures Run(Start(producers, consumers), steps).broken
  {
    var s := Start(producers, consumers);
    var a := [TestFull(0, p), Insert(0)];
    var b := [TestEmpty(0), TestEmpty(1), Remove(0), Remove(1)];
    RunTwo(s, TestFull(0, p), Insert(0));
    RunFour(Next(Next(s, TestFull(0, p)), Insert(0)), TestEmpty(0), TestEmpty(1), Remove(0), Remove(1));
    RunJoins(s, a, b);
    steps := a + b;
  }

  /** Without a producer nothing is ever there to be promised. */
  lemma {:induction false} NoProducer(s: State, steps: seq<Step>)
    requires s.producers == [] && s.items == Items([], 0) && !s.broken && forall j | 0 <= j < |s.ready| :: !s.ready[j]
    ensures Run(s, steps) == s
    decreases |steps|
  {
    if steps != [] {
      assert Next(s, steps[0]) == s;
      NoProducer(s, steps[1..]);
    }
  }

  /** A thread removes from an empty list on some run exactly when two threads dequeue and one enqueues. */
  lemma {:induction false} BreaksIff(producers: nat, consumers: nat)
    ensures (exists steps :: Run(Start(producers, consumers), steps).broken) <==> producers >= 1 && consumers >= 2
  {
    hide Next;
    var s := Start(producers, consumers);
    if producers >= 1 && consumers >= 2 {
      var steps := TwoConsumersBreak(producers, consumers, Packet(0, []));
      assert Run(s, steps).broken;
    } else {
      forall steps
        ensures !Run(s, steps).broken
      {
        if consumers <= 1 {
          RunPromised(s, steps);
        } else {
          NoProducer(s, steps);
        }
      }
    }
  }

  /** One producer and one consumer, in any interleaving. */
  lemma {:induction false} OneToOne(steps: seq<Step>)
    ensures var s := Run(Start(1, 1), steps);
            !s.broken && s.items.size == |s.items.list| <= 16 && s.delivered + s.items.list == s.accepted
  {
    hide Next;
    RunBounded(Start(1, 1), steps);
    RunPromised(Start(1, 1), steps);
    RunConserves(Start(1, 1), steps);
  }
}
