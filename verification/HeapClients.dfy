/** Whole runs of the heap in memory: allocator calls by clients and other kernel code, mixed with
    stores of any bytes anywhere but to free pages and the headers of live blocks. */
module HeapClients {
  import opened Bytes
  import opened PmmSpec
  import opened BuddyState
  import opened HeapRuns
  import opened Chains
  import opened Heap
  import opened HeapMemory

  datatype ClientOp = Call(op: Op) | Write(address: nat, value: byte)

  ghost predicate Permitted(st: State, op: ClientOp) {
    match op
    case Call(o) => Allowed(st, o)
    case Write(a, v) => MayWrite(st, a)
  }

  ghost function After(st: State, op: ClientOp): State
    requires Inv(st) && Permitted(st, op)
  {
    match op
    case Call(o) => Step(st, o)
    case Write(a, v) => st
  }

  lemma AfterInv(st: State, op: ClientOp)
    requires Inv(st) && Permitted(st, op)
    ensures Inv(After(st, op))
  {
    if op.Call? {
      StepInv(st, op.op);
    }
  }

  ghost predicate PermittedRun(st: State, ops: seq<ClientOp>)
    requires Inv(st)
    decreases |ops|
  {
    ops == [] || (Permitted(st, ops[0]) && (AfterInv(st, ops[0]); PermittedRun(After(st, ops[0]), ops[1..])))
  }

  /** The allocator calls of a run, the writes left out. */
  function Calls(ops: seq<ClientOp>): seq<Op> {
    if ops == [] then [] else (if ops[0].Call? then [ops[0].op] else []) + Calls(ops[1..])
  }

  lemma {:induction false} CallsAllowed(st: State, ops: seq<ClientOp>)
    requires Inv(st) && PermittedRun(st, ops)
    ensures AllowedRun(st, Calls(ops))
    decreases |ops|
  {
    hide Inv, Step;
    if ops != [] {
      AfterInv(st, ops[0]);
      CallsAllowed(After(st, ops[0]), ops[1..]);
      if ops[0].Call? {
        assert Calls(ops)[1..] == Calls(ops[1..]);
      } else {
        assert Calls(ops) == Calls(ops[1..]);
      }
    }
  }

  /** What address a holds after the writes of a run, having held v. */
  function LastWritten(ops: seq<ClientOp>, a: nat, v: byte): byte {
    if ops == [] then v
    else
      var last := ops[|ops| - 1];
      if last.Write? && last.address == a then last.value else LastWritten(ops[..|ops| - 1], a, v)
  }

  lemma LastWrittenNext(ops: seq<ClientOp>, i: nat, a: nat, v: byte)
    requires i < |ops|
    ensures LastWritten(ops[..i + 1], a, v)
            == if ops[i].Write? && ops[i].address == a then ops[i].value else LastWritten(ops[..i], a, v)
  {
    assert ops[..i + 1][..i] == ops[..i];
  }

  /** No operation frees the block at page. */
  ghost predicate SparedBy(ops: seq<ClientOp>, page: nat) {
    forall i {:trigger ops[i]} :: 0 <= i < |ops| && ops[i].Call? ==> Spares(ops[i].op, page)
  }

  /** Address a lies in the payload of a live block that no operation frees. */
  ghost predicate Private(st: State, ops: seq<ClientOp>, a: nat) {
    a < MEMORY && exists page :: InPayload(st, page, a) && SparedBy(ops, page)
  }

  /** The blocks of st that a run spares are live in t, with their orders. */
  ghost predicate SparedLive(st: State, t: State, ops: seq<ClientOp>) {
    forall page :: page in st.live && SparedBy(ops, page) ==> page in t.live && t.live[page] == st.live[page]
  }

  lemma PrivateLive(st: State, t: State, ops: seq<ClientOp>, a: nat)
    requires Inv(t) && SparedLive(st, t, ops) && Private(st, ops, a)
    ensures a / PAGE_SIZE in LivePages(t)
  {
    var page :| InPayload(st, page, a) && SparedBy(ops, page);
    PayloadWritable(t, page, a);
  }

  lemma StepSpares(st: State, t: State, ops: seq<ClientOp>, i: nat)
    requires Inv(t) && SparedLive(st, t, ops) && i < |ops| && Permitted(t, ops[i])
    ensures SparedLive(st, After(t, ops[i]), ops)
  {
    hide Inv, Step, Allowed, Spares;
    forall page | page in st.live && SparedBy(ops, page)
      ensures page in After(t, ops[i]).live && After(t, ops[i]).live[page] == st.live[page]
    {
      if ops[i].Call? {
        assert Spares(ops[i].op, page);
        StepKeepsLive(t, ops[i].op, page);
      }
    }
  }

  /** The page of address a belongs to a live block before and after. */
  ghost predicate StaysLive(st: State, t: State, a: nat) {
    a / PAGE_SIZE in LivePages(st) && a / PAGE_SIZE in LivePages(t)
  }

  lemma FillOne(bits: seq<bool>)
    ensures forall p :: 0 <= p < |bits| ==> Fill(bits, p, 1) == bits[p := true]
  {
  }

  /** A page-allocator call by other kernel code. */
  method CallBelow(m: Memory, op: Op)
    requires m.Valid() && Allowed(m.heap.Abs(), op) && !op.Malloc? && !op.Free?
    modifies m.heap.pmm, m.heap.pmm.bitmap
    ensures m.Valid() && Inv(old(m.heap.Abs())) && m.heap.Abs() == Step(old(m.heap.Abs()), op)
  {
    hide Inv, Linked, LivePages, FreePages, CountClear;
    ghost var st := m.heap.Abs();
    StepInv(st, op);
    FirstRunMeaning(st.bits, 1, 0);
    match op
    case TakePage =>
      var address := m.heap.pmm.AllocPage();
      FillOne(st.bits);
    case TakeRun(pages) =>
      var address := m.heap.pmm.AllocContiguous(pages);
    case GiveBack(page) =>
      m.heap.pmm.FreePage(page * PAGE_SIZE);
  }

  /** An allocator call by a client or by other kernel code. */
  method Perform(m: Memory, op: Op)
    requires m.Valid() && Allowed(m.heap.Abs(), op)
    modifies m.heap, m.heap.freeLists, m.heap.headers, m.heap.pmm, m.heap.pmm.bitmap
    ensures m.Valid() && Inv(old(m.heap.Abs())) && m.heap.Abs() == Step(old(m.heap.Abs()), op)
    ensures forall a :: 0 <= a < MEMORY && StaysLive(old(m.heap.Abs()), m.heap.Abs(), a) ==> m.At(a) == old(m.At(a))
  {
    hide Inv, Linked, LivePages, FreePages, HeaderBytes, BuddyState.Kmalloc, BuddyState.Kfree;
    ghost var st := m.heap.Abs();
    match op
    case Malloc(size) =>
      var pointer := m.Kmalloc(size);
    case Free(pointer) =>
      m.Kfree(pointer);
    case TakePage => CallBelow(m, op);
    case TakeRun(pages) => CallBelow(m, op);
    case GiveBack(page) => CallBelow(m, op);
  }

  method Turn(m: Memory, op: ClientOp)
    requires m.Valid() && Permitted(m.heap.Abs(), op)
    modifies m.heap, m.heap.freeLists, m.heap.headers, m.heap.pmm, m.heap.pmm.bitmap, m.rest
    ensures m.Valid() && Inv(old(m.heap.Abs())) && m.heap.Abs() == After(old(m.heap.Abs()), op)
    ensures forall a :: 0 <= a < MEMORY && StaysLive(old(m.heap.Abs()), m.heap.Abs(), a) ==>
                          m.At(a) == if op.Write? && op.address == a then op.value else old(m.At(a))
  {
    hide LivePages;
    match op
    case Call(o) => Perform(m, o);
    case Write(a, v) => m.Store(a, v);
  }

  /** The first operation of a run, and the rest. */
  lemma RunHead(st: State, ops: seq<ClientOp>)
    requires Inv(st) && ops != [] && PermittedRun(st, ops)
    ensures Permitted(st, ops[0]) && Inv(After(st, ops[0])) && PermittedRun(After(st, ops[0]), ops[1..])
    ensures AllowedRun(st, Calls(ops)) && AllowedRun(After(st, ops[0]), Calls(ops[1..]))
    ensures Run(After(st, ops[0]), Calls(ops[1..])) == Run(st, Calls(ops))
  {
    hide Inv, Step;
    AfterInv(st, ops[0]);
    CallsAllowed(st, ops);
    CallsAllowed(After(st, ops[0]), ops[1..]);
    if ops[0].Call? {
      assert Calls(ops)[1..] == Calls(ops[1..]);
    } else {
      assert Calls(ops) == Calls(ops[1..]);
    }
  }

  /** Private addresses stay in live pages from one operation to the next. */
  lemma PrivateStays(st: State, t: State, ops: seq<ClientOp>, i: nat)
    requires Inv(t) && SparedLive(st, t, ops) && i < |ops| && Permitted(t, ops[i])
    ensures SparedLive(st, After(t, ops[i]), ops)
    ensures forall a :: Private(st, ops, a) ==> StaysLive(t, After(t, ops[i]), a)
  {
    hide Inv, Step, Allowed, LivePages, Private, SparedLive, After;
    StepSpares(st, t, ops, i);
    AfterInv(t, ops[i]);
    forall a | Private(st, ops, a)
      ensures StaysLive(t, After(t, ops[i]), a)
    {
      PrivateLive(st, t, ops, a);
      PrivateLive(st, After(t, ops[i]), ops, a);
    }
  }

  /** Any permitted run of calls and writes leaves the heap valid, in the state its calls alone lead to;
      and every payload byte of a block no call frees is what was last written there. */
  method Serve(m: Memory, ops: seq<ClientOp>)
    requires m.Valid() && Inv(m.heap.Abs()) && PermittedRun(m.heap.Abs(), ops)
    modifies m.heap, m.heap.freeLists, m.heap.headers, m.heap.pmm, m.heap.pmm.bitmap, m.rest
    ensures m.Valid()
    ensures AllowedRun(old(m.heap.Abs()), Calls(ops)) && m.heap.Abs() == Run(old(m.heap.Abs()), Calls(ops))
    ensures forall a :: Private(old(m.heap.Abs()), ops, a) ==> m.At(a) == LastWritten(ops, a, old(m.At(a)))
  {
    ghost var st := m.heap.Abs();
    CallsAllowed(st, ops);
    ghost var goal := Run(st, Calls(ops));
    assert SparedLive(st, st, ops);
    assert forall a, v :: LastWritten([], a, v) == v;
    assert ops[0..] == ops && ops[..0] == [];
    hide Inv, After, Permitted, Allowed, Step, LastWritten, SparedLive, StaysLive, Memory.At, BuddyHeap.Valid;
    hide InPayload, SparedBy;
    var i := 0;
    while i < |ops|
      invariant i <= |ops| && m.Valid() && Inv(m.heap.Abs()) && PermittedRun(m.heap.Abs(), ops[i..])
      invariant AllowedRun(m.heap.Abs(), Calls(ops[i..])) && Run(m.heap.Abs(), Calls(ops[i..])) == goal
      invariant SparedLive(st, m.heap.Abs(), ops)
      invariant forall a :: Private(st, ops, a) ==> m.At(a) == LastWritten(ops[..i], a, old(m.At(a)))
    {
      ghost var t := m.heap.Abs();
      RunHead(t, ops[i..]);
      assert ops[i..][0] == ops[i] && ops[i..][1..] == ops[i + 1..];
      PrivateStays(st, t, ops, i);
      Turn(m, ops[i]);
      forall a | Private(st, ops, a)
        ensures m.At(a) == LastWritten(ops[..i + 1], a, old(m.At(a)))
      {
        LastWrittenNext(ops, i, a, old(m.At(a)));
      }
      i := i + 1;
    }
    assert ops[i..] == [] && ops[..i] == ops;
  }
}
