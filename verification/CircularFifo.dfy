/** The lock-free queue between one producer and one consumer.

    `push` and `pop` are broken into their single loads, stores and slot accesses, and any
    interleaving of the two sides' steps is a run. Over every run the queue is proved to hand
    on what was pushed, in order, without the two sides ever being at the same slot. */
module CircularFifo {
  import opened Division

  /** What the producer is about to do. Between its load of the head and its store of the tail
      it owns the slot it writes. */
  datatype Producer<T> =
    | Ready
    | Starting(item: T)
    | HasTail(item: T, tail: nat)
    | Writing(item: T, tail: nat)
    | Written(item: T, tail: nat)

  datatype Consumer<T> =
    | Asleep
    | Beginning
    | HasHead(head: nat)
    | Reading(head: nat)
    | Taken(item: T, head: nat)

  /** What a push or a pop said, and how many items were in the queue when it looked. */
  datatype Report = Full(occupancy: int) | NotFull(occupancy: int) | Empty(occupancy: int) | NotEmpty(occupancy: int)

  /** The shared indices and slots, both sides, and the history. */
  datatype State<T> = State(capacity: nat, tail: nat, head: nat, slots: seq<T>, producer: Producer<T>,
                            consumer: Consumer<T>, pushed: seq<T>, popped: seq<T>, reports: seq<Report>)

  datatype Step<T> = StartPush(item: T) | LoadTail | CheckHead | WriteSlot | StoreTail
                   | StartPop | LoadHead | CheckTail | ReadSlot | StoreHead

  function Increment(idx: nat, capacity: nat): nat
    requires capacity > 0
  {
    (idx + 1) % capacity
  }

  function Occupancy<T>(s: State<T>): int { |s.pushed| - |s.popped| }

  /** Which side may do what. */
  predicate Enabled<T>(s: State<T>, step: Step<T>) {
    match step
    case StartPush(_) => s.producer.Ready?
    case LoadTail => s.producer.Starting?
    case CheckHead => s.producer.HasTail?
    case WriteSlot => s.producer.Writing? && s.producer.tail < |s.slots|
    case StoreTail => s.producer.Written?
    case StartPop => s.consumer.Asleep?
    case LoadHead => s.consumer.Beginning?
    case CheckTail => s.consumer.HasHead?
    case ReadSlot => s.consumer.Reading? && s.consumer.head < |s.slots|
    case StoreHead => s.consumer.Taken?
  }

  /** One load, store or slot access. */
  function After<T>(s: State<T>, step: Step<T>): State<T>
    requires s.capacity > 0 && Enabled(s, step)
  {
    match step
    case StartPush(item) => s.(producer := Starting(item))
    case LoadTail => s.(producer := HasTail(s.producer.item, s.tail))
    case CheckHead =>
      if Increment(s.producer.tail, s.capacity) != s.head then
        s.(producer := Writing(s.producer.item, s.producer.tail), reports := s.reports + [NotFull(Occupancy(s))])
      else s.(producer := Ready, reports := s.reports + [Full(Occupancy(s))])
    case WriteSlot =>
      s.(slots := s.slots[s.producer.tail := s.producer.item], producer := Written(s.producer.item, s.producer.tail))
    case StoreTail =>
      s.(tail := Increment(s.producer.tail, s.capacity), producer := Ready, pushed := s.pushed + [s.producer.item])
    case StartPop => s.(consumer := Beginning)
    case LoadHead => s.(consumer := HasHead(s.head))
    case CheckTail =>
      if s.consumer.head == s.tail then s.(consumer := Asleep, reports := s.reports + [Empty(Occupancy(s))])
      else s.(consumer := Reading(s.consumer.head), reports := s.reports + [NotEmpty(Occupancy(s))])
    case ReadSlot => s.(consumer := Taken(s.slots[s.consumer.head], s.consumer.head))
    case StoreHead =>
      s.(head := Increment(s.consumer.head, s.capacity), consumer := Asleep, popped := s.popped + [s.consumer.item])
  }

  /** A queue for `size` items, before anything happened. */
  predicate Initial<T>(s: State<T>) {
    && s.capacity > 0 && |s.slots| == s.capacity && s.tail == 0 && s.head == 0
    && s.producer.Ready? && s.consumer.Asleep? && s.pushed == [] && s.popped == [] && s.reports == []
  }

  // ----- what every step keeps

  /** The indices are the counts of what was pushed and popped, modulo the capacity. */
  predicate Indices<T>(s: State<T>) {
    && s.capacity > 0 && |s.slots| == s.capacity
    && s.tail == |s.pushed| % s.capacity && s.head == |s.popped| % s.capacity
    && 0 <= Occupancy(s) <= s.capacity - 1
  }

  /** What was popped is what was pushed first, and the slots hold the rest. */
  predicate Contents<T(==)>(s: State<T>)
    requires s.capacity > 0 && |s.slots| == s.capacity
  {
    && s.popped <= s.pushed
    && forall i :: |s.popped| <= i < |s.pushed| ==> s.slots[i % s.capacity] == s.pushed[i]
  }

  predicate ProducerKnows<T(==)>(s: State<T>)
    requires Indices(s)
  {
    match s.producer
    case Ready => true
    case Starting(_) => true
    case HasTail(_, tail) => tail == s.tail
    case Writing(_, tail) => tail == s.tail && Occupancy(s) < s.capacity - 1
    case Written(item, tail) => tail == s.tail && Occupancy(s) < s.capacity - 1 && s.slots[tail] == item
  }

  predicate ConsumerKnows<T(==)>(s: State<T>)
    requires Indices(s)
  {
    match s.consumer
    case Asleep => true
    case Beginning => true
    case HasHead(head) => head == s.head
    case Reading(head) => head == s.head && Occupancy(s) > 0
    case Taken(item, head) => head == s.head && Occupancy(s) > 0 && item == s.pushed[|s.popped|]
  }

  /** Full is said exactly when the queue was full, empty exactly when it was empty. */
  predicate Truthful(reports: seq<Report>, size: int) {
    forall i :: 0 <= i < |reports| ==>
      match reports[i]
      case Full(n) => n == size
      case NotFull(n) => n < size
      case Empty(n) => n == 0
      case NotEmpty(n) => n > 0
  }

  ghost predicate Invariant<T>(s: State<T>) {
    Indices(s) && Contents(s) && ProducerKnows(s) && ConsumerKnows(s) && Truthful(s.reports, s.capacity - 1)
  }

  // ----- indices modulo the capacity

  /** Counts less than a capacity apart have the same index only if they are the same. */
  lemma SameIndex(a: nat, b: nat, n: nat)
    requires n > 0 && b <= a < b + n && a % n == b % n
    ensures a == b
  {
    assert a == (a / n) * n + a % n;
    assert b == (b / n) * n + b % n;
    assert (a / n - b / n) * n == a - b;
    SmallMultiple(a / n - b / n, n);
  }

  lemma NextIndex(a: nat, n: nat)
    requires n > 0
    ensures (a % n + 1) % n == (a + 1) % n
  {
    DivideOn(1, a, n);
  }

  /** The slot after the tail is the head's exactly when the queue is full. */
  lemma FullIff<T>(s: State<T>)
    requires Indices(s)
    ensures Increment(s.tail, s.capacity) == s.head <==> Occupancy(s) == s.capacity - 1
  {
    var a, b, n := |s.pushed|, |s.popped|, s.capacity;
    NextIndex(a, n);
    if Occupancy(s) == n - 1 {
      assert a + 1 == b + n;
      DivideOn(b, n, n);
    } else if (a + 1) % n == b % n {
      SameIndex(a + 1, b, n);
    }
  }

  lemma EmptyIff<T>(s: State<T>)
    requires Indices(s)
    ensures s.head == s.tail <==> Occupancy(s) == 0
  {
    if s.head == s.tail {
      SameIndex(|s.pushed|, |s.popped|, s.capacity);
    }
  }

  // ----- the steps that matter

  /** The slot at the tail holds no item that is still to be popped. */
  lemma TailSlotFree<T>(s: State<T>, i: nat)
    requires Indices(s) && |s.popped| <= i < |s.pushed|
    ensures i % s.capacity != s.tail
  {
    if i % s.capacity == s.tail {
      SameIndex(|s.pushed|, i, s.capacity);
    }
  }

  lemma WriteKeeps<T>(s: State<T>)
    requires Invariant(s) && Enabled(s, WriteSlot)
    ensures Invariant(After(s, WriteSlot))
  {
    var t := After(s, WriteSlot);
    forall i | |s.popped| <= i < |s.pushed| ensures t.slots[i % s.capacity] == s.pushed[i] {
      TailSlotFree(s, i);
    }
  }

  lemma StoreTailKeeps<T>(s: State<T>)
    requires Invariant(s) && Enabled(s, StoreTail)
    ensures Invariant(After(s, StoreTail))
  {
    var t := After(s, StoreTail);
    NextIndex(|s.pushed|, s.capacity);
    forall i | |t.popped| <= i < |t.pushed| ensures t.slots[i % t.capacity] == t.pushed[i] {
    }
  }

  lemma ReadKeeps<T>(s: State<T>)
    requires Invariant(s) && Enabled(s, ReadSlot)
    ensures Invariant(After(s, ReadSlot))
  {
    var next := s.slots[|s.popped| % s.capacity];
    assert next == s.pushed[|s.popped|];
  }

  lemma StoreHeadKeeps<T>(s: State<T>)
    requires Invariant(s) && Enabled(s, StoreHead)
    ensures Invariant(After(s, StoreHead))
  {
    var t := After(s, StoreHead);
    NextIndex(|s.popped|, s.capacity);
    assert s.pushed[..|s.popped| + 1] == s.pushed[..|s.popped|] + [s.pushed[|s.popped|]];
    assert Occupancy(t) == Occupancy(s) - 1;
  }

  lemma CheckKeeps<T>(s: State<T>, step: Step<T>)
    requires Invariant(s) && Enabled(s, step) && (step.CheckHead? || step.CheckTail?)
    ensures Invariant(After(s, step))
  {
    FullIff(s);
    EmptyIff(s);
  }

  /** Every step of either side keeps the invariant. */
  lemma StepKeeps<T>(s: State<T>, step: Step<T>)
    requires Invariant(s) && Enabled(s, step)
    ensures Invariant(After(s, step))
  {
    match step
    case WriteSlot => WriteKeeps(s);
    case StoreTail => StoreTailKeeps(s);
    case ReadSlot => ReadKeeps(s);
    case StoreHead => StoreHeadKeeps(s);
    case CheckHead => CheckKeeps(s, step);
    case CheckTail => CheckKeeps(s, step);
    case StartPush(item) =>
    case LoadTail =>
    case StartPop =>
    case LoadHead =>
  }

  // ----- every interleaving

  /** `run` is a run from s: each step may be taken where it stands. */
  predicate IsRun<T>(s: State<T>, run: seq<Step<T>>)
    decreases |run|
  {
    run != [] ==> s.capacity > 0 && Enabled(s, run[0]) && IsRun(After(s, run[0]), run[1..])
  }

  function Ran<T>(s: State<T>, run: seq<Step<T>>): State<T>
    requires IsRun(s, run)
    decreases |run|
  {
    if run == [] then s else Ran(After(s, run[0]), run[1..])
  }

  lemma {:induction false} RunKeeps<T>(s: State<T>, run: seq<Step<T>>)
    requires Invariant(s) && IsRun(s, run)
    ensures Invariant(Ran(s, run)) && Ran(s, run).capacity == s.capacity
    decreases |run|
  {
    hide Invariant;
    if run != [] {
      StepKeeps(s, run[0]);
      RunKeeps(After(s, run[0]), run[1..]);
    }
  }

  // ----- what becomes of an item that was accepted

  /** The items somebody asked to push, in order. */
  function Asked<T>(run: seq<Step<T>>): seq<T> {
    if run == [] then [] else (if run[0].StartPush? then [run[0].item] else []) + Asked(run[1..])
  }

  /** What the pushes were told, in order: whether there was room. */
  function Answers(reports: seq<Report>): seq<bool> {
    if reports == [] then []
    else
      var last := reports[|reports| - 1];
      Answers(reports[..|reports| - 1]) + if last.Full? then [false] else if last.NotFull? then [true] else []
  }

  /** How many pops were told that there is an item. */
  function Granted(reports: seq<Report>): nat {
    if reports == [] then 0
    else Granted(reports[..|reports| - 1]) + if reports[|reports| - 1].NotEmpty? then 1 else 0
  }

  /** The items whose push was told that there is room. */
  function Accepted<T>(asked: seq<T>, answers: seq<bool>): seq<T>
    requires |answers| <= |asked|
    decreases |answers|
  {
    if answers == [] then []
    else
      var n := |answers| - 1;
      Accepted(asked, answers[..n]) + if answers[n] then [asked[n]] else []
  }

  /** The item of a push that was accepted and is not in the queue yet. */
  function InHand<T>(p: Producer<T>): seq<T> {
    if p.Writing? || p.Written? then [p.item] else []
  }

  predicate Undecided<T>(p: Producer<T>) { p.Starting? || p.HasTail? }

  ghost predicate Booked<T>(s: State<T>, asked: seq<T>) {
    && |asked| == |Answers(s.reports)| + (if Undecided(s.producer) then 1 else 0)
    && (Undecided(s.producer) ==> s.producer.item == asked[|asked| - 1])
    && Accepted(asked, Answers(s.reports)) == s.pushed + InHand(s.producer)
    && Granted(s.reports) == |s.popped| + if s.consumer.Reading? || s.consumer.Taken? then 1 else 0
  }

  lemma Reported(reports: seq<Report>, r: Report)
    ensures Answers(reports + [r]) == Answers(reports) + if r.Full? then [false] else if r.NotFull? then [true] else []
    ensures Granted(reports + [r]) == Granted(reports) + if r.NotEmpty? then 1 else 0
  {
    assert (reports + [r])[..|reports|] == reports;
  }

  lemma {:induction false} AskedMore<T>(asked: seq<T>, item: T, answers: seq<bool>)
    requires |answers| <= |asked|
    ensures Accepted(asked + [item], answers) == Accepted(asked, answers)
    decreases |answers|
  {
    if answers != [] {
      AskedMore(asked, item, answers[..|answers| - 1]);
    }
  }

  lemma AnsweredMore<T>(asked: seq<T>, answers: seq<bool>, yes: bool)
    requires |answers| < |asked|
    ensures Accepted(asked, answers + [yes]) == Accepted(asked, answers) + if yes then [asked[|answers|]] else []
  {
    assert (answers + [yes])[..|answers|] == answers;
  }

  lemma StepBooked<T>(s: State<T>, step: Step<T>, asked: seq<T>)
    requires s.capacity > 0 && Enabled(s, step) && Booked(s, asked)
    ensures Booked(After(s, step), asked + if step.StartPush? then [step.item] else [])
  {
    hide Answers, Granted, Accepted;
    assert asked + [] == asked;
    match step
    case StartPush(item) => AskedMore(asked, item, Answers(s.reports));
    case CheckHead =>
      var room := Increment(s.producer.tail, s.capacity) != s.head;
      Reported(s.reports, if room then NotFull(Occupancy(s)) else Full(Occupancy(s)));
      AnsweredMore(asked, Answers(s.reports), room);
    case CheckTail =>
      var some := s.consumer.head != s.tail;
      Reported(s.reports, if some then NotEmpty(Occupancy(s)) else Empty(Occupancy(s)));
      assert Answers(s.reports) + [] == Answers(s.reports);
    case LoadTail =>
    case WriteSlot =>
    case StoreTail =>
    case StartPop =>
    case LoadHead =>
    case ReadSlot =>
    case StoreHead =>
  }

  lemma {:induction false} RunBooked<T>(s: State<T>, run: seq<Step<T>>, asked: seq<T>)
    requires IsRun(s, run) && Booked(s, asked)
    ensures Booked(Ran(s, run), asked + Asked(run))
    decreases |run|
  {
    hide Booked;
    if run == [] {
      assert asked + Asked(run) == asked;
    } else {
      var now := if run[0].StartPush? then [run[0].item] else [];
      StepBooked(s, run[0], asked);
      RunBooked(After(s, run[0]), run[1..], asked + now);
      assert asked + now + Asked(run[1..]) == asked + (now + Asked(run[1..]));
    }
  }

  /** In every interleaving of the two sides: what was popped is a prefix of what was pushed,
      the queue never holds more than its size, `full` is said exactly when it is full and
      `empty` exactly when it is empty, and the sides are never at the same slot at once. No
      item is lost: those whose push was told that there is room are, in order, the ones
      pushed and the one still in the producer's hands; and a pop that was told that there is
      an item has popped it or holds it. */
  lemma EveryInterleaving<T>(s: State<T>, run: seq<Step<T>>)
    requires Initial(s) && IsRun(s, run)
    ensures var now := Ran(s, run); var size := s.capacity - 1;
      && now.popped <= now.pushed && 0 <= Occupancy(now) <= size && Truthful(now.reports, size)
      && (now.producer.Writing? && now.consumer.Reading? ==> now.producer.tail != now.consumer.head)
      && |Answers(now.reports)| <= |Asked(run)|
      && Accepted(Asked(run), Answers(now.reports)) == now.pushed + InHand(now.producer)
      && Granted(now.reports) == |now.popped| + if now.consumer.Reading? || now.consumer.Taken? then 1 else 0
  {
    assert Invariant(s);
    RunKeeps(s, run);
    var now := Ran(s, run);
    assert Booked(s, []);
    RunBooked(s, run, []);
    assert [] + Asked(run) == Asked(run);
    if now.producer.Writing? && now.consumer.Reading? {
      NeverSameSlot(now);
    }
  }

  lemma NeverSameSlot<T>(s: State<T>)
    requires Invariant(s) && s.producer.Writing? && s.consumer.Reading?
    ensures s.producer.tail != s.consumer.head
  {
    TailSlotFree(s, |s.popped|);
  }

  predicate OfProducer<T(==)>(step: Step<T>, item: T) {
    step == StartPush(item) || step.LoadTail? || step.CheckHead? || step.WriteSlot? || step.StoreTail?
  }

  predicate OfConsumer<T>(step: Step<T>) {
    step.StartPop? || step.LoadHead? || step.CheckTail? || step.ReadSlot? || step.StoreHead?
  }

  /** Neither side waits for the other: each always has a next step. */
  lemma BothGoOn<T>(s: State<T>, item: T)
    requires Invariant(s)
    ensures exists step :: Enabled(s, step) && OfProducer(step, item)
    ensures exists step :: Enabled(s, step) && OfConsumer(step)
  {
    var push := match s.producer
      case Ready => StartPush(item)
      case Starting(_) => LoadTail
      case HasTail(_, _) => CheckHead
      case Writing(_, _) => WriteSlot
      case Written(_, _) => StoreTail;
    var pop: Step<T> := match s.consumer
      case Asleep => StartPop
      case Beginning => LoadHead
      case HasHead(_) => CheckTail
      case Reading(_) => ReadSlot
      case Taken(_, _) => StoreHead;
    assert Enabled(s, push) && OfProducer(push, item);
    assert Enabled(s, pop) && OfConsumer(pop);
  }
}
