/** The single-producer single-consumer ring buffer as a step machine: one action for each load,
    slot access and store. A load of the other thread's index may be stale: it returns any value
    stored between the last one that thread has seen and the newest. */
module SpscQueue {
  import opened Arithmetic
  import opened Wrappers

  datatype Producer<+T> =
    | PushIdle
    | PushLoaded(w: nat, next: nat, item: T)
    | PushWrite(w: nat, next: nat, item: T)
    | PushStore(next: nat, item: T)

  datatype Consumer<+T> =
    | PopIdle
    | PopLoaded(r: nat)
    | PopRead(r: nat)
    | PopStore(next: nat, item: T)

  /** `writeIdx` and `readIdx` hold all values ever stored in the two atomic indices, oldest first;
      `seenReads` and `seenWrites` say which of them the other thread saw last. `pushed` and `popped`
      record what successful calls passed in and returned. */
  datatype State<+T> = State(
    capacity: nat,
    slots: seq<Option<T>>,
    writeIdx: seq<nat>,
    readIdx: seq<nat>,
    seenReads: nat,
    seenWrites: nat,
    producer: Producer<T>,
    consumer: Consumer<T>,
    pushed: seq<T>,
    popped: seq<T>)

  function New<T>(capacity: nat): State<T> {
    State(capacity, seq(capacity, _ => None), [0], [0], 0, 0, PushIdle, PopIdle, [], [])
  }

  // ---- The atomic actions ----

  /** `k` is which store a load of the other thread's index observes. */
  datatype Action<+T> =
    | LoadWrite(item: T)
    | CheckRead(k: nat)
    | WriteSlot
    | StoreWrite
    | LoadRead
    | CheckWrite(k: nat)
    | ReadSlot
    | StoreRead

  function Last(s: seq<nat>): nat
    requires s != []
  {
    s[|s| - 1]
  }

  function Wrap(capacity: nat, i: nat): nat {
    if i + 1 == capacity then 0 else i + 1
  }

  predicate Wellformed<T>(s: State<T>) { s.writeIdx != [] && s.readIdx != [] }

  /** Whether the action is its thread's next one. */
  predicate Enabled<T>(s: State<T>, a: Action<T>) {
    match a
    case LoadWrite(_) => s.producer.PushIdle?
    case CheckRead(k) => s.producer.PushLoaded? && s.seenReads <= k < |s.readIdx|
    case WriteSlot => s.producer.PushWrite?
    case StoreWrite => s.producer.PushStore?
    case LoadRead => s.consumer.PopIdle?
    case CheckWrite(k) => s.consumer.PopLoaded? && s.seenWrites <= k < |s.writeIdx|
    case ReadSlot => s.consumer.PopRead?
    case StoreRead => s.consumer.PopStore?
  }

  /** The action stays inside the buffer, reads only what was written, and touches no slot that the
      other thread is about to touch. */
  predicate Safe<T>(s: State<T>, a: Action<T>) {
    match a
    case WriteSlot =>
      s.producer.PushWrite? ==> s.producer.w < |s.slots| && (s.consumer.PopRead? ==> s.consumer.r != s.producer.w)
    case ReadSlot =>
      s.consumer.PopRead? ==>
        && s.consumer.r < |s.slots| && s.slots[s.consumer.r].Some?
        && (s.producer.PushWrite? ==> s.producer.w != s.consumer.r)
    case _ => true
  }

  function Step<T>(s: State<T>, a: Action<T>): State<T>
    requires Wellformed(s) && Enabled(s, a) && Safe(s, a)
  {
    match a
    case LoadWrite(item) =>
      var w := Last(s.writeIdx);
      s.(producer := PushLoaded(w, Wrap(s.capacity, w), item))
    case CheckRead(k) =>
      var PushLoaded(w, next, item) := s.producer;
      s.(seenReads := k, producer := if next != s.readIdx[k] then PushWrite(w, next, item) else PushIdle)
    case WriteSlot =>
      var PushWrite(w, next, item) := s.producer;
      s.(slots := s.slots[w := Some(item)], producer := PushStore(next, item))
    case StoreWrite =>
      var PushStore(next, item) := s.producer;
      s.(writeIdx := s.writeIdx + [next], producer := PushIdle, pushed := s.pushed + [item])
    case LoadRead =>
      s.(consumer := PopLoaded(Last(s.readIdx)))
    case CheckWrite(k) =>
      s.(seenWrites := k, consumer := if s.consumer.r == s.writeIdx[k] then PopIdle else PopRead(s.consumer.r))
    case ReadSlot =>
      s.(consumer := PopStore(Wrap(s.capacity, s.consumer.r), s.slots[s.consumer.r].value))
    case StoreRead =>
      var PopStore(next, item) := s.consumer;
      s.(readIdx := s.readIdx + [next], consumer := PopIdle, popped := s.popped + [item])
  }

  // ---- The invariant ----

  ghost predicate Laps(idx: seq<nat>, capacity: nat, count: nat)
    requires capacity > 0
  {
    |idx| == count + 1 && forall k :: 0 <= k <= count ==> idx[k] == k % capacity
  }

  ghost predicate ProducerInv<T>(s: State<T>)
    requires |s.slots| == s.capacity > 0
  {
    var p, n := |s.pushed|, s.capacity;
    && s.seenReads <= |s.popped| && p < s.seenReads + n
    && match s.producer
       case PushIdle => true
       case PushLoaded(w, next, _) => w == p % n && next == (p + 1) % n
       case PushWrite(w, next, _) => w == p % n && next == (p + 1) % n && p + 1 < s.seenReads + n
       case PushStore(next, item) => next == (p + 1) % n && p + 1 < s.seenReads + n && s.slots[p % n] == Some(item)
  }

  ghost predicate ConsumerInv<T>(s: State<T>)
    requires s.capacity > 0
  {
    var c, n := |s.popped|, s.capacity;
    && c <= s.seenWrites <= |s.pushed|
    && match s.consumer
       case PopIdle => true
       case PopLoaded(r) => r == c % n
       case PopRead(r) => r == c % n && c < s.seenWrites
       case PopStore(next, item) => next == (c + 1) % n && c < s.seenWrites && item == s.pushed[c]
  }

  ghost predicate Inv<T>(s: State<T>) {
    var p, c, n := |s.pushed|, |s.popped|, s.capacity;
    && n > 0 && |s.slots| == n
    && Laps(s.writeIdx, n, p) && Laps(s.readIdx, n, c)
    && s.popped <= s.pushed
    && (forall k :: c <= k < p ==> s.slots[k % n] == Some(s.pushed[k]))
    && ProducerInv(s) && ConsumerInv(s)
  }

  lemma NewInv<T>(capacity: nat)
    requires capacity >= 1
    ensures Inv<T>(New(capacity))
  {
  }

  /** No thread ever touches a slot the other may be touching, nor one outside the buffer, nor
      reads one that holds nothing. */
  lemma InvIsSafe<T>(s: State<T>, a: Action<T>)
    requires Inv(s)
    ensures Safe(s, a)
  {
    var p, c, n := |s.pushed|, |s.popped|, s.capacity;
    if s.producer.PushWrite? && s.consumer.PopRead? {
      RingMeets(p, c, n);
    }
  }

  lemma ProducerKeepsInv<T>(s: State<T>, a: Action<T>)
    requires Inv(s) && Enabled(s, a) && Safe(s, a)
    requires a.LoadWrite? || a.CheckRead? || a.WriteSlot? || a.StoreWrite?
    ensures Inv(Step(s, a))
  {
    var p, c, n := |s.pushed|, |s.popped|, s.capacity;
    match a
    case LoadWrite(_) => RingStep(p, n);
    case CheckRead(k) => RingMeets(p + 1, k, n);
    case WriteSlot =>
      forall k | c <= k < p ensures k % n != p % n { RingMeets(p, k, n); }
    case _ =>
  }

  lemma ConsumerKeepsInv<T>(s: State<T>, a: Action<T>)
    requires Inv(s) && Enabled(s, a) && Safe(s, a)
    requires a.LoadRead? || a.CheckWrite? || a.ReadSlot? || a.StoreRead?
    ensures Inv(Step(s, a))
  {
    var c, n := |s.popped|, s.capacity;
    match a
    case CheckWrite(k) => RingMeets(k, c, n);
    case ReadSlot => RingStep(c, n);
    case _ =>
  }

  lemma StepKeepsInv<T>(s: State<T>, a: Action<T>)
    requires Inv(s) && Enabled(s, a)
    ensures Safe(s, a) && Inv(Step(s, a))
  {
    InvIsSafe(s, a);
    if a.LoadWrite? || a.CheckRead? || a.WriteSlot? || a.StoreWrite? {
      ProducerKeepsInv(s, a);
    } else {
      ConsumerKeepsInv(s, a);
    }
  }

  // ---- Every interleaving ----

  /** The state after a schedule; None once an action is out of turn or unsafe. */
  ghost function Run<T>(capacity: nat, schedule: seq<Action<T>>): Option<State<T>> {
    if schedule == [] then Some(New(capacity))
    else
      var last := schedule[|schedule| - 1];
      match Run(capacity, schedule[..|schedule| - 1])
      case None => None
      case Some(s) => if Wellformed(s) && Enabled(s, last) && Safe(s, last) then Some(Step(s, last)) else None
  }

  /** Whatever the schedule and however stale the loads: what was popped is a prefix of what was
      pushed, at most capacity - 1 items are stored, and every slot access follows the store that
      published or released that slot. */
  lemma {:induction false} EveryScheduleDelivers<T>(capacity: nat, schedule: seq<Action<T>>)
    requires capacity >= 1 && Run(capacity, schedule).Some?
    ensures var s := Run(capacity, schedule).value;
            && Inv(s) && s.capacity == capacity
            && s.popped <= s.pushed && |s.pushed| - |s.popped| <= capacity - 1
            && (s.producer.PushWrite? ==> |s.pushed| - capacity < s.seenReads <= |s.popped|)
            && (s.consumer.PopRead? ==> |s.popped| < s.seenWrites <= |s.pushed|)
  {
    if schedule == [] {
      NewInv<T>(capacity);
    } else {
      var init, last := schedule[..|schedule| - 1], schedule[|schedule| - 1];
      EveryScheduleDelivers(capacity, init);
      StepKeepsInv(Run(capacity, init).value, last);
    }
  }

  // ---- What the calls passed in and returned, read off the schedule alone ----

  /** The item of the last push that was begun. */
  ghost function LastBegun<T>(schedule: seq<Action<T>>): Option<T> {
    if schedule == [] then None
    else
      var last := schedule[|schedule| - 1];
      if last.LoadWrite? then Some(last.item) else LastBegun(schedule[..|schedule| - 1])
  }

  /** The items of the pushes that were completed, in order. */
  ghost function Completed<T>(schedule: seq<Action<T>>): seq<Option<T>> {
    if schedule == [] then []
    else
      var init := schedule[..|schedule| - 1];
      Completed(init) + if schedule[|schedule| - 1].StoreWrite? then [LastBegun(init)] else []
  }

  /** How many pops were completed. */
  ghost function Pops<T>(schedule: seq<Action<T>>): nat {
    if schedule == [] then 0
    else Pops(schedule[..|schedule| - 1]) + if schedule[|schedule| - 1].StoreRead? then 1 else 0
  }

  ghost function Somes<T>(s: seq<T>): (r: seq<Option<T>>)
    ensures |r| == |s| && forall i :: 0 <= i < |s| ==> r[i] == Some(s[i])
  {
    seq(|s|, i requires 0 <= i < |s| => Some(s[i]))
  }

  /** The item the producer is working on. */
  ghost function InHand<T>(p: Producer<T>): Option<T> {
    if p.PushIdle? then None else Some(p.item)
  }

  lemma StepTells<T>(s: State<T>, a: Action<T>)
    requires Wellformed(s) && Enabled(s, a) && Safe(s, a)
    ensures var t := Step(s, a);
            && Somes(t.pushed) == Somes(s.pushed) + (if a.StoreWrite? then [InHand(s.producer)] else [])
            && |t.popped| == |s.popped| + (if a.StoreRead? then 1 else 0)
            && (a.LoadWrite? ==> InHand(t.producer) == Some(a.item))
            && (!a.LoadWrite? && !t.producer.PushIdle? ==> InHand(t.producer) == InHand(s.producer) != None)
            && (a.StoreWrite? ==> InHand(s.producer) != None)
  {
  }

  /** Every completed push is recorded with its own item, every completed pop is counted. */
  lemma {:induction false} ScheduleTellsAll<T>(capacity: nat, schedule: seq<Action<T>>)
    requires Run(capacity, schedule).Some?
    ensures var s := Run(capacity, schedule).value;
            && Somes(s.pushed) == Completed(schedule) && |s.popped| == Pops(schedule)
            && (!s.producer.PushIdle? ==> InHand(s.producer) == LastBegun(schedule))
  {
    if schedule == [] {
    } else {
      var init := schedule[..|schedule| - 1];
      ScheduleTellsAll(capacity, init);
      StepTells(Run(capacity, init).value, schedule[|schedule| - 1]);
    }
  }

  /** Whatever the schedule and however stale the loads, the pops that were completed returned the items
      of the first pushes that were completed, in order. */
  lemma PopsReturnPushes<T>(capacity: nat, schedule: seq<Action<T>>)
    requires capacity >= 1 && Run(capacity, schedule).Some?
    ensures Pops(schedule) <= |Completed(schedule)| <= Pops(schedule) + capacity - 1
    ensures Somes(Run(capacity, schedule).value.popped) == Completed(schedule)[..Pops(schedule)]
  {
    EveryScheduleDelivers(capacity, schedule);
    ScheduleTellsAll(capacity, schedule);
  }

  // ---- One call from beginning to end ----

  ghost predicate Then<T>(s: State<T>, a: Action<T>, t: State<T>) {
    Inv(s) && Enabled(s, a) && Safe(s, a) && t == Step(s, a)
  }

  lemma Take<T>(s: State<T>, a: Action<T>) returns (t: State<T>)
    requires Inv(s) && Enabled(s, a)
    ensures Then(s, a, t) && Inv(t)
  {
    StepKeepsInv(s, a);
    t := Step(s, a);
  }

  /** A push that is begun can be carried through whichever value of the read index it sees from the last
      one on. It adds its item if that value leaves room, and otherwise changes neither queue. */
  lemma PushRuns<T>(s: State<T>, item: T, k: nat) returns (t: State<T>)
    requires Inv(s) && s.producer.PushIdle? && s.seenReads <= k < |s.readIdx|
    ensures Inv(t) && t.producer.PushIdle? && t.consumer == s.consumer && t.popped == s.popped && t.seenReads == k
    ensures t.pushed == s.pushed + if |s.pushed| - k < s.capacity - 1 then [item] else []
  {
    t := Take(s, LoadWrite(item));
    PushRefusedIffFull(t, k);
    t := Take(t, CheckRead(k));
    if t.producer.PushWrite? {
      t := Take(t, WriteSlot);
      t := Take(t, StoreWrite);
    }
  }

  /** So can a pop, whichever value of the write index it sees. It takes the oldest item if that value
      shows one, and otherwise changes neither queue. */
  lemma PopRuns<T>(s: State<T>, k: nat) returns (t: State<T>)
    requires Inv(s) && s.consumer.PopIdle? && s.seenWrites <= k < |s.writeIdx|
    ensures Inv(t) && t.consumer.PopIdle? && t.producer == s.producer && t.pushed == s.pushed && t.seenWrites == k
    ensures t.popped == s.popped + if |s.popped| < k then [s.pushed[|s.popped|]] else []
  {
    t := Take(s, LoadRead);
    PopRefusedIffEmpty(t, k);
    t := Take(t, CheckWrite(k));
    if t.consumer.PopRead? {
      t := Take(t, ReadSlot);
      t := Take(t, StoreRead);
    }
  }

  /** A push is refused exactly when the queue was full as of the pops it saw. */
  lemma PushRefusedIffFull<T>(s: State<T>, k: nat)
    requires Inv(s) && Enabled(s, CheckRead(k))
    ensures Step(s, CheckRead(k)).producer == PushIdle <==> |s.pushed| - k == s.capacity - 1
  {
    RingMeets(|s.pushed| + 1, k, s.capacity);
  }

  /** A pop returns None exactly when the queue was empty as of the pushes it saw. */
  lemma PopRefusedIffEmpty<T>(s: State<T>, k: nat)
    requires Inv(s) && Enabled(s, CheckWrite(k))
    ensures Step(s, CheckWrite(k)).consumer == PopIdle <==> k == |s.popped|
  {
    RingMeets(k, |s.popped|, s.capacity);
  }

  ghost predicate AlwaysSafe<T(!new)>(capacity: nat) {
    forall schedule: seq<Action<T>>, a: Action<T> ::
      var r := Run(capacity, schedule);
      r.Some? && Enabled(r.value, a) ==> Safe(r.value, a)
  }

  /** A queue of capacity 0 is the one that can touch memory it does not have: its first push does. */
  lemma SafeIffNonempty<T(!new)>(capacity: nat, item: T)
    ensures AlwaysSafe<T>(capacity) <==> capacity >= 1
  {
    if capacity >= 1 {
      forall schedule: seq<Action<T>>, a: Action<T>
        | Run(capacity, schedule).Some? && Enabled(Run(capacity, schedule).value, a)
        ensures Safe(Run(capacity, schedule).value, a)
      {
        EveryScheduleDelivers(capacity, schedule);
        InvIsSafe(Run(capacity, schedule).value, a);
      }
    } else {
      var one, two := [LoadWrite(item)], [LoadWrite(item), CheckRead(0)];
      assert one[..0] == [] && two[..1] == one;
      assert Run(capacity, one).Some?;
      assert Run(capacity, two).value.producer == PushWrite(0, 1, item);
      assert !Safe(Run(capacity, two).value, WriteSlot);
    }
  }
}
