/** The single-producer single-consumer input ring, with putc and getc cut into their individual reads
    and writes of shared memory, one per step, and interleaved freely. */
module InputRing {

  const SIZE: nat := 128

  /** Where putc stands: nothing under way; head read and next computed; room found; head read again for
      the slot; character stored. */
  datatype Producer = Idle | Computed(c: char, next: nat) | HasRoom(c: char, next: nat)
                    | Aimed(c: char, next: nat, slot: nat) | Stored(c: char, next: nat)

  /** Where getc stands: nothing under way; head read; not empty; tail read for the slot; character
      fetched; tail read again and the next one computed. */
  datatype Consumer = Waiting | SawHead(head: nat) | NotEmpty | Sighted(slot: nat) | Fetched(c: char)
                    | Moving(c: char, next: nat)

  /** Shared memory and both program points; published and consumed record what went through. */
  datatype State = State(buf: seq<char>, head: nat, tail: nat, put: Producer, get: Consumer,
                         published: seq<char>, consumed: seq<char>)

  datatype Step = StartPut(c: char) | CheckRoom | Aim | Store | Publish
                | StartGet | CheckEmpty | Sight | Fetch | Advance | Release

  function After(i: nat): (r: nat)
    ensures r < SIZE
  {
    (i + 1) % 128
  }

  predicate Enabled(s: State, step: Step) {
    match step
    case StartPut(c) => s.put.Idle?
    case CheckRoom => s.put.Computed?
    case Aim => s.put.HasRoom?
    case Store => s.put.Aimed? && s.put.slot < SIZE
    case Publish => s.put.Stored?
    case StartGet => s.get.Waiting?
    case CheckEmpty => s.get.SawHead?
    case Sight => s.get.NotEmpty?
    case Fetch => s.get.Sighted? && s.get.slot < SIZE
    case Advance => s.get.Fetched?
    case Release => s.get.Moving?
  }

  /** One shared-memory access by one side. A full ring drops the character; an empty one ends the get. */
  function Take(s: State, step: Step): State
    requires Enabled(s, step) && |s.buf| == SIZE && s.head < SIZE && s.tail < SIZE
  {
    match step
    case StartPut(c) => s.(put := Computed(c, After(s.head)))
    case CheckRoom => s.(put := if s.put.next != s.tail then HasRoom(s.put.c, s.put.next) else Idle)
    case Aim => s.(put := Aimed(s.put.c, s.put.next, s.head))
    case Store => s.(buf := s.buf[s.put.slot := s.put.c], put := Stored(s.put.c, s.put.next))
    case Publish => s.(head := s.put.next, put := Idle, published := s.published + [s.put.c])
    case StartGet => s.(get := SawHead(s.head))
    case CheckEmpty => s.(get := if s.get.head == s.tail then Waiting else NotEmpty)
    case Sight => s.(get := Sighted(s.tail))
    case Fetch => s.(get := Fetched(s.buf[s.get.slot]))
    case Advance => s.(get := Moving(s.get.c, After(s.tail)))
    case Release => s.(tail := s.get.next, get := Waiting, consumed := s.consumed + [s.get.c])
  }

  /** Characters published and not yet consumed. */
  ghost function Pending(s: State): int {
    |s.published| - |s.consumed|
  }

  /** The slot k places after tail. */
  function Index(tail: nat, k: nat): (i: nat)
    ensures i < SIZE
  {
    (tail + k) % 128
  }

  function Slot(s: State, k: nat): (i: nat)
    ensures i < SIZE
  {
    Index(s.tail, k)
  }

  /** The slots from tail up to head hold the characters published and not yet consumed. */
  ghost predicate Queue(s: State) {
    && |s.buf| == SIZE && s.head < SIZE && s.tail < SIZE
    && s.consumed <= s.published && Pending(s) < SIZE
    && s.head == Slot(s, Pending(s))
    && (forall k :: 0 <= k < Pending(s) ==> s.buf[Slot(s, k)] == s.published[|s.consumed| + k])
  }

  ghost predicate PutOk(s: State)
    requires |s.buf| == SIZE && s.head < SIZE
  {
    match s.put
    case Idle => true
    case Computed(c, next) => next == After(s.head)
    case HasRoom(c, next) => next == After(s.head) && Pending(s) < SIZE - 1
    case Aimed(c, next, slot) => next == After(s.head) && Pending(s) < SIZE - 1 && slot == s.head
    case Stored(c, next) => next == After(s.head) && Pending(s) < SIZE - 1 && s.buf[s.head] == c
  }

  ghost predicate GetOk(s: State)
    requires 0 <= Pending(s)
  {
    match s.get
    case Waiting => true
    case SawHead(h) => exists m :: 0 <= m <= Pending(s) && h == Slot(s, m)
    case NotEmpty => Pending(s) > 0
    case Sighted(slot) => Pending(s) > 0 && slot == s.tail
    case Fetched(c) => Pending(s) > 0 && c == s.published[|s.consumed|]
    case Moving(c, next) => Pending(s) > 0 && c == s.published[|s.consumed|] && next == After(s.tail)
  }

  ghost predicate Inv(s: State) {
    Queue(s) && PutOk(s) && GetOk(s)
  }

  ghost predicate Initial(s: State) {
    |s.buf| == SIZE && s.head == 0 && s.tail == 0 && s.put == Idle && s.get == Waiting
    && s.published == [] && s.consumed == []
  }

  // ----- Ring arithmetic ----------------------------------------------------------

  /** How many characters lie between tail and head. */
  function Between(head: nat, tail: nat): nat
    requires tail < SIZE
  {
    (head + SIZE - tail) % 128
  }

  /** The remainders of sums below 256. */
  lemma Wraps(head: nat, tail: nat, k: nat)
    requires head < SIZE && tail < SIZE && k < SIZE
    ensures Between(head, tail) == if head >= tail then head - tail else head + SIZE - tail
    ensures Index(tail, k) == if tail + k < SIZE then tail + k else tail + k - SIZE
    ensures After(k) == if k == SIZE - 1 then 0 else k + 1
  {
  }

  /** Slots of different distances below the ring size differ. */
  lemma SlotsDiffer(s: State, j: nat, k: nat)
    requires s.tail < SIZE && j < SIZE && k < SIZE && j != k
    ensures Slot(s, j) != Slot(s, k)
  {
    Wraps(0, s.tail, j);
    Wraps(0, s.tail, k);
    hide Index;
  }

  lemma SlotAfter(s: State, k: nat)
    requires s.tail < SIZE && k < SIZE
    ensures After(Slot(s, k)) == if k == SIZE - 1 then s.tail else Slot(s, k + 1)
  {
    Wraps(0, s.tail, k);
    Wraps(0, s.tail, Slot(s, k));
    if k < SIZE - 1 {
      Wraps(0, s.tail, k + 1);
    }
    hide Index, After;
  }

  /** The ring is full exactly when 127 characters wait. */
  lemma FullExactly(s: State)
    requires Queue(s)
    ensures After(s.head) == s.tail <==> Pending(s) == SIZE - 1
    ensures Pending(s) < SIZE - 1 ==> After(s.head) == Slot(s, Pending(s) + 1)
  {
    SlotAfter(s, Pending(s));
    if Pending(s) < SIZE - 1 {
      Wraps(0, s.tail, Pending(s) + 1);
    }
    hide Index, After;
  }

  // ----- Every step keeps the ring ---------------------------------------------------

  lemma InvStep(s: State, step: Step)
    requires Inv(s) && Enabled(s, step)
    ensures Inv(Take(s, step))
  {
    match step
    case StartPut(c) => PutSideInv(s, step);
    case CheckRoom => PutSideInv(s, step);
    case Aim => PutSideInv(s, step);
    case Store => StoreInv(s);
    case Publish => PublishInv(s);
    case StartGet => GetSideInv(s, step);
    case CheckEmpty => GetSideInv(s, step);
    case Sight => GetSideInv(s, step);
    case Fetch => GetSideInv(s, step);
    case Advance => GetSideInv(s, step);
    case Release => ReleaseInv(s);
  }

  /** A step that leaves the queue itself alone. */
  lemma SameQueue(s: State, t: State)
    requires Queue(s) && t.buf == s.buf && t.head == s.head && t.tail == s.tail
    requires t.published == s.published && t.consumed == s.consumed
    ensures Queue(t)
  {
    assert Pending(t) == Pending(s);
    forall k | 0 <= k < Pending(t)
      ensures t.buf[Slot(t, k)] == t.published[|t.consumed| + k]
    {
      assert Slot(t, k) == Slot(s, k);
    }
  }

  lemma PutSideInv(s: State, step: Step)
    requires Inv(s) && Enabled(s, step) && (step.StartPut? || step.CheckRoom? || step.Aim?)
    ensures Inv(Take(s, step))
  {
    var t := Take(s, step);
    SameQueue(s, t);
    SameGet(s, t);
    FullExactly(s);
    hide Queue, After, Slot, Index;
  }

  lemma GetSideInv(s: State, step: Step)
    requires Inv(s) && Enabled(s, step)
    requires step.StartGet? || step.CheckEmpty? || step.Sight? || step.Fetch? || step.Advance?
    ensures Inv(Take(s, step))
  {
    var t := Take(s, step);
    SameQueue(s, t);
    Wraps(0, s.tail, 0);
    hide Index, After;
    assert Slot(s, 0) == s.tail && t.head == Slot(t, Pending(t));
    assert Pending(s) > 0 ==> s.buf[Slot(s, 0)] == s.published[|s.consumed| + 0];
    hide Queue;
  }

  /** The slot written holds no character still to be consumed. */
  lemma StoreIsSafe(s: State)
    requires Inv(s) && s.put.Aimed?
    ensures s.put.slot == s.head && forall k :: 0 <= k < Pending(s) ==> Slot(s, k) != s.put.slot
  {
    forall k | 0 <= k < Pending(s)
      ensures Slot(s, k) != s.head
    {
      SlotsDiffer(s, k, Pending(s));
    }
  }

  lemma StoreInv(s: State)
    requires Inv(s) && s.put.Aimed?
    ensures s.put.slot < SIZE && Inv(Take(s, Store))
  {
    StoreIsSafe(s);
    var t := Take(s, Store);
    forall k | 0 <= k < Pending(t)
      ensures t.buf[Slot(t, k)] == t.published[|t.consumed| + k]
    {
      assert Slot(s, k) == Slot(t, k);
    }
    SameGet(s, t);
  }

  /** A saw-head witness survives a step that moves neither tail nor the seen head and only adds characters. */
  lemma SameGet(s: State, t: State)
    requires Inv(s) && t.get == s.get && t.tail == s.tail && Pending(t) >= Pending(s)
    ensures t.get.SawHead? ==> exists m :: 0 <= m <= Pending(t) && t.get.head == Slot(t, m)
  {
    if s.get.SawHead? {
      var m :| 0 <= m <= Pending(s) && s.get.head == Slot(s, m);
      assert t.get.head == Slot(t, m);
    }
  }

  lemma PublishInv(s: State)
    requires Inv(s) && s.put.Stored?
    ensures Inv(Take(s, Publish))
  {
    var t := Take(s, Publish);
    FullExactly(s);
    forall k | 0 <= k < Pending(t)
      ensures t.buf[Slot(t, k)] == t.published[|t.consumed| + k]
    {
      assert Slot(t, k) == Slot(s, k);
    }
    SameGet(s, t);
  }

  lemma ShiftedSlot(s: State, t: State, k: nat)
    requires s.tail < SIZE && t.tail == After(s.tail) && k + 1 < SIZE
    ensures Slot(t, k) == Slot(s, k + 1)
  {
    Wraps(0, s.tail, k + 1);
    Wraps(0, t.tail, k);
    Wraps(0, s.tail, s.tail);
    hide Index, After;
  }

  lemma ReleaseInv(s: State)
    requires Inv(s) && s.get.Moving?
    ensures Inv(Take(s, Release))
  {
    hide Slot, After;
    var t := Take(s, Release);
    assert t.consumed <= t.published && Pending(t) == Pending(s) - 1;
    ShiftedSlot(s, t, Pending(t));
    forall k | 0 <= k < Pending(t)
      ensures t.buf[Slot(t, k)] == t.published[|t.consumed| + k]
    {
      ShiftedSlot(s, t, k);
      assert s.buf[Slot(s, k + 1)] == s.published[|s.consumed| + (k + 1)];
    }
  }

  /** A run: every step enabled where it is taken. */
  ghost predicate EnabledRun(s: State, steps: seq<Step>)
    requires Inv(s)
    decreases |steps|
  {
    steps == [] || (Enabled(s, steps[0]) && (InvStep(s, steps[0]); EnabledRun(Take(s, steps[0]), steps[1..])))
  }

  ghost function Run(s: State, steps: seq<Step>): State
    requires Inv(s) && EnabledRun(s, steps)
    decreases |steps|
  {
    if steps == [] then s else InvStep(s, steps[0]); Run(Take(s, steps[0]), steps[1..])
  }

  lemma {:induction false} RunInv(s: State, steps: seq<Step>)
    requires Inv(s) && EnabledRun(s, steps)
    ensures Inv(Run(s, steps))
    decreases |steps|
  {
    if steps != [] {
      InvStep(s, steps[0]);
      RunInv(Take(s, steps[0]), steps[1..]);
    }
  }

  /** Over every interleaving: what has been consumed is a prefix of what was accepted, the queue never
      exceeds 127, and a store never hits a slot still to be consumed. */
  lemma RingSafe(s: State, steps: seq<Step>)
    requires Initial(s) && EnabledRun(s, steps)
    ensures var end := Run(s, steps);
            && end.consumed <= end.published
            && Pending(end) <= SIZE - 1
            && (end.put.Aimed? ==> forall k :: 0 <= k < Pending(end) ==> Slot(end, k) != end.put.slot)
  {
    RunInv(s, steps);
    var end := Run(s, steps);
    if end.put.Aimed? {
      StoreIsSafe(end);
    }
  }

  // ----- Two producers ---------------------------------------------------------------

  /** A put that has found room, run to its end. */
  function FinishStore(s: State): State
    requires |s.buf| == SIZE && s.head < SIZE && s.tail < SIZE && (s.put.Aimed? ==> s.put.slot < SIZE)
  {
    var t := if s.put.HasRoom? then Take(s, Aim) else s;
    var u := if t.put.Aimed? then Take(t, Store) else t;
    if u.put.Stored? then Take(u, Publish) else u
  }

  /** The put under way runs on to its end. The getter is in the same context and cannot come between. */
  function Finish(s: State): State
    requires |s.buf| == SIZE && s.head < SIZE && s.tail < SIZE && (s.put.Aimed? ==> s.put.slot < SIZE)
  {
    FinishStore(if s.put.Computed? then Take(s, CheckRoom) else s)
  }

  /** A whole put of b runs in an interrupt, step by step with locals of its own; the locals of the
      put it interrupted, if one was under way, are then back. */
  function Preempt(s: State, b: char): State
    requires |s.buf| == SIZE && s.head < SIZE && s.tail < SIZE
  {
    Finish(Take(s.(put := Idle), StartPut(b))).(put := s.put)
  }

  /** Nothing is under way, or the interrupting put finds the ring full. */
  predicate Undisturbed(s: State) {
    s.put.Idle? || After(s.head) == s.tail
  }

  lemma FinishInv(s: State)
    requires Inv(s)
    ensures Inv(Finish(s))
  {
    var r := if s.put.Computed? then Take(s, CheckRoom) else s;
    if s.put.Computed? {
      InvStep(s, CheckRoom);
    }
    var t := if r.put.HasRoom? then Take(r, Aim) else r;
    if r.put.HasRoom? {
      InvStep(r, Aim);
    }
    var u := if t.put.Aimed? then Take(t, Store) else t;
    if t.put.Aimed? {
      InvStep(t, Store);
    }
    if u.put.Stored? {
      InvStep(u, Publish);
    }
  }

  /** With no put interrupted, or the ring full, the interrupting put is an ordinary one. */
  lemma PreemptHarmless(s: State, b: char)
    requires Inv(s) && Undisturbed(s)
    ensures Inv(Preempt(s, b)) && Preempt(s, b).put == s.put
  {
    if After(s.head) == s.tail {
      assert Preempt(s, b) == s;
    } else {
      assert s.(put := Idle) == s;
      InvStep(s, StartPut(b));
      FinishInv(Take(s, StartPut(b)));
    }
  }

  /** The character that reaches the ring when a put of b comes in the middle of another put: the
      interrupted one when its slot was already chosen, b otherwise. */
  function Survivor(s: State, b: char): char
    requires !s.put.Idle?
  {
    if s.put.Aimed? then s.put.c else b
  }

  /** Where both puts leave the ring when the interrupted one had not found it full: one character in
      the slot both aimed for, at most one in the slot after it, and the head between the two. */
  lemma PreemptShape(s: State, b: char)
    requires Inv(s) && !Undisturbed(s)
    ensures var v := Finish(Preempt(s, b));
            && v.put == Idle && v.published == s.published + [b, s.put.c] && v.consumed == s.consumed
            && v.tail == s.tail && v.head == After(s.head) != s.tail && |v.buf| == SIZE
            && v.buf[s.head] == Survivor(s, b)
            && forall i :: 0 <= i < SIZE && i != s.head && i != v.head ==> v.buf[i] == s.buf[i]
  {
    var t := Preempt(s, b);
    assert t.head == After(s.head) != s.tail && t.buf == s.buf[s.head := b];
    assert t.put == s.put && t.put.next == t.head && t.head != s.head;
    hide Queue, GetOk;
  }

  /** Otherwise both puts publish the same index: both characters count as accepted, but the ring holds
      what it would hold if only the survivor had been put, and so is wrong about everything else. */
  lemma PreemptLoses(s: State, b: char)
    requires Inv(s) && !Undisturbed(s)
    ensures var v := Finish(Preempt(s, b));
            && v.published == s.published + [b, s.put.c] && !Queue(v)
            && forall x :: Queue(v.(published := s.published + [x])) <==> x == Survivor(s, b)
  {
    PreemptShape(s, b);
    var p, v := Pending(s), Finish(Preempt(s, b));
    var kept := Survivor(s, b);
    hide Finish, Preempt, PutOk, GetOk, Survivor;
    FullExactly(s);
    hide After, Index;
    OneMore(s, v.(published := s.published + [kept]), kept);
    forall x | x != kept
      ensures !Queue(v.(published := s.published + [x]))
    {
      var w := v.(published := s.published + [x]);
      assert Slot(w, p) == s.head && w.published[|w.consumed| + p] == x;
    }
    if p + 2 < SIZE {
      SlotsDiffer(v, p + 1, p + 2);
    }
  }

  /** A queue with one more character in the slot after the last. */
  lemma OneMore(s: State, w: State, b: char)
    requires Queue(s) && Pending(s) < SIZE - 1 && w.tail == s.tail && w.consumed == s.consumed
    requires w.published == s.published + [b] && w.head == After(s.head) && |w.buf| == SIZE && w.buf[s.head] == b
    requires forall i :: 0 <= i < SIZE && i != s.head && i != w.head ==> w.buf[i] == s.buf[i]
    ensures Queue(w)
  {
    var p := Pending(s);
    FullExactly(s);
    hide After;
    forall k | 0 <= k < p + 1
      ensures w.buf[Slot(w, k)] == w.published[|w.consumed| + k]
    {
      assert Slot(w, k) == Slot(s, k);
      SlotsDiffer(s, k, p + 1);
      if k < p {
        SlotsDiffer(s, k, p);
      }
    }
  }

  /** A second producer is harmless exactly when it interrupts no put or finds the ring full, in every
      state that any interleaving of one producer and the consumer reaches: the ring then goes on in
      good order. Otherwise one of the two accepted characters never reaches it: the interrupted one,
      unless it had already read the head for its slot, and then the interrupting one. */
  lemma SecondProducerExact(start: State, steps: seq<Step>, b: char)
    requires Initial(start) && EnabledRun(start, steps)
    ensures var s := Run(start, steps);
            && Ready(s) && Ready(Preempt(s, b))
            && var v := Finish(Preempt(s, b));
            && (Queue(v) <==> Undisturbed(s))
            && (Undisturbed(s) ==> Inv(v))
            && (!Undisturbed(s) ==>
                  && v.published == s.published + [b, s.put.c]
                  && forall x :: Queue(v.(published := s.published + [x])) <==> x == Survivor(s, b))
  {
    RunInv(start, steps);
    var s := Run(start, steps);
    if Undisturbed(s) {
      PreemptHarmless(s, b);
      FinishInv(Preempt(s, b));
    } else {
      PreemptLoses(s, b);
    }
  }

  /** The indices are inside the buffer. */
  predicate Ready(s: State) {
    |s.buf| == SIZE && s.head < SIZE && s.tail < SIZE && (s.put.Aimed? ==> s.put.slot < SIZE)
  }

  /** It does happen: at the very first put, the interrupted character a is lost if the interrupt comes
      right after the head is first read, and the interrupting b if it comes just before the store. */
  lemma SecondProducerLosesOne(start: State, a: char, b: char)
    requires Initial(start) && a != b
    ensures var early, late := [StartPut(a)], [StartPut(a), CheckRoom, Aim];
            && EnabledRun(start, early) && EnabledRun(start, late)
            && var s, t := Run(start, early), Run(start, late);
            && Ready(s) && Ready(t) && Ready(Preempt(s, b)) && Ready(Preempt(t, b))
            && var v, w := Finish(Preempt(s, b)), Finish(Preempt(t, b));
            && v.published == w.published == [b, a]
            && Queue(v.(published := [b])) && !Queue(v.(published := [a]))
            && Queue(w.(published := [a])) && !Queue(w.(published := [b]))
  {
    var s := Take(start, StartPut(a));
    var room := Take(s, CheckRoom);
    RunOne(start, StartPut(a), []);
    RunOne(room, Aim, []);
    RunOne(s, CheckRoom, [Aim]);
    RunOne(start, StartPut(a), [CheckRoom, Aim]);
    assert [StartPut(a)] + [] == [StartPut(a)] && [Aim] + [] == [Aim] && [CheckRoom] + [Aim] == [CheckRoom, Aim];
    assert [StartPut(a)] + [CheckRoom, Aim] == [StartPut(a), CheckRoom, Aim];
    OneOfTwo(s, b);
    OneOfTwo(Take(room, Aim), b);
  }

  lemma OneOfTwo(s: State, b: char)
    requires Inv(s) && !Undisturbed(s) && s.published == []
    ensures Ready(s) && Ready(Preempt(s, b))
    ensures var v := Finish(Preempt(s, b));
            v.published == [b, s.put.c] && forall x :: Queue(v.(published := [x])) <==> x == Survivor(s, b)
  {
    PreemptLoses(s, b);
    assert forall x :: s.published + [x] == [x];
    assert s.published + [b, s.put.c] == [b, s.put.c];
  }

  /** A run by its first step. */
  lemma RunOne(s: State, step: Step, rest: seq<Step>)
    requires Inv(s) && Enabled(s, step)
    ensures Inv(Take(s, step))
    ensures EnabledRun(Take(s, step), rest) ==>
              EnabledRun(s, [step] + rest) && Run(s, [step] + rest) == Run(Take(s, step), rest)
    ensures rest == [] ==> EnabledRun(Take(s, step), rest) && Run(Take(s, step), rest) == Take(s, step)
  {
    InvStep(s, step);
    assert ([step] + rest)[1..] == rest;
  }

  lemma HeadAdvances(head: nat, tail: nat)
    requires head < SIZE && tail < SIZE
    ensures Between(head, tail) < SIZE && Index(tail, Between(head, tail)) == head
    ensures if After(head) == tail then Between(head, tail) == SIZE - 1
            else Between(After(head), tail) == Between(head, tail) + 1
    ensures forall k :: 0 <= k < Between(head, tail) ==> Index(tail, k) != head
  {
    Wraps(head, tail, head);
    Wraps(After(head), tail, Between(head, tail));
    hide Index, Between, After;
    forall k | 0 <= k < Between(head, tail)
      ensures Index(tail, k) != head
    {
      Wraps(head, tail, k);
    }
  }

  lemma TailAdvances(head: nat, tail: nat)
    requires head < SIZE && tail < SIZE && head != tail
    ensures Between(head, tail) == Between(head, After(tail)) + 1 && Index(tail, 0) == tail
    ensures forall k :: 0 <= k < Between(head, After(tail)) ==> Index(After(tail), k) == Index(tail, k + 1)
  {
    Wraps(head, tail, tail);
    Wraps(head, After(tail), 0);
    Wraps(head, tail, 0);
    hide Index, Between, After;
    forall k | 0 <= k < Between(head, After(tail))
      ensures Index(After(tail), k) == Index(tail, k + 1)
    {
      Wraps(head, After(tail), k);
      Wraps(head, tail, k + 1);
    }
  }

  /** The queue when no access is interrupted. */
  class Ring {
    const buf: array<char>
    var head: nat
    var tail: nat

    ghost predicate Valid()
      reads this
    {
      buf.Length == SIZE && head < SIZE && tail < SIZE
    }

    ghost function Count(): (n: nat)
      reads this
      requires Valid()
      ensures n < SIZE
    {
      Between(head, tail)
    }

    /** The characters waiting, oldest first. */
    ghost function Contents(): (s: seq<char>)
      reads this, buf
      requires Valid()
      ensures |s| == Count()
    {
      seq(Count(), k requires Valid() && 0 <= k < Count() reads this, buf => buf[Index(tail, k)])
    }

    constructor ()
      ensures Valid() && Contents() == [] && fresh(buf)
    {
      buf := new char[SIZE];
      head, tail := 0, 0;
    }

    /** A character is queued, or dropped when 127 are waiting. */
    method Putc(c: char)
      requires Valid()
      modifies this, buf
      ensures Valid() && tail == old(tail)
      ensures Contents() == if |old(Contents())| < SIZE - 1 then old(Contents()) + [c] else old(Contents())
    {
      ghost var n, was := Count(), Contents();
      HeadAdvances(head, tail);
      var next := (head + 1) % 128;
      if next != tail {
        hide Between, Index;
        buf[head] := c;
        head := next;
        assert Count() == n + 1;
        assert Contents() == was + [c];
      }
    }

    /** The oldest character, or nothing. */
    method Getc() returns (found: bool, c: char)
      requires Valid()
      modifies this
      ensures Valid() && (found <==> old(Contents()) != [])
      ensures found ==> old(Contents()) == [c] + Contents()
      ensures !found ==> Contents() == old(Contents())
    {
      if head == tail {
        return false, ' ';
      }
      ghost var n, was := Count(), Contents();
      TailAdvances(head, tail);
      hide Between, Index;
      c := buf[tail];
      tail := (tail + 1) % 128;
      found := true;
      assert Count() == n - 1;
      assert was == [c] + Contents();
    }
  }
}
