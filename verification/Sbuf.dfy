/**
  The semaphore bounded buffer, as a transition system: any number of threads, each at its own
  point of sbuf_insert or sbuf_remove, and one atomic step at a time: a P, a V, a load or a store.
  */
module Sbuf {
  import opened Sequences

  /** Where a thread is. The number is what it has loaded from rear or front, plus one once stored back. */
  datatype Thread =
    | Idle
    | InsWaitSlots(item: int)
    | InsWaitMutex(item: int)
    | InsLoadRear(item: int)
    | InsStoreRear(item: int, r: nat)
    | InsStoreBuf(item: int, r: nat)
    | InsPostMutex
    | InsPostItems
    | RemWaitItems
    | RemWaitMutex
    | RemLoadFront
    | RemStoreFront(f: nat)
    | RemLoadBuf(f: nat)
    | RemPostMutex(item: int)
    | RemPostSlots(item: int)

  /** What an idle thread does next. */
  datatype Call = Insert(item: int) | Remove

  /** A scheduling decision: one thread takes one step. */
  datatype Choice = Choice(thread: nat, call: Call)

  /** The buffer and its semaphores; and the history of stores, loads and returns. */
  datatype Shared = Shared(
    n: nat, buf: seq<int>, front: nat, rear: nat,
    mutex: nat, slots: nat, items: nat,
    inserted: seq<int>, removed: seq<int>, returned: multiset<int>)

  datatype State = State(sh: Shared, threads: seq<Thread>)

  /** sbuf_init, with `threads` idle threads. */
  function Init(n: nat, threads: nat): State {
    State(Shared(n, seq(n, _ => 0), 0, 0, 1, n, 0, [], [], multiset{}), seq(threads, _ => Idle))
  }

  /** The slot that the C code's `% n` picks. */
  function Slot(k: nat, n: nat): (i: nat)
    requires n > 0
    ensures i < n
  {
    k % n
  }

  /** One atomic step of a thread; it stays where it is while it waits on a semaphore that is zero. */
  function Move(m: Shared, t: Thread, call: Call): (Shared, Thread)
    requires |m.buf| == m.n
  {
    match t
    case Idle => (m, if call.Insert? then InsWaitSlots(call.item) else RemWaitItems)
    case InsWaitSlots(item) => if m.slots == 0 then (m, t) else (m.(slots := m.slots - 1), InsWaitMutex(item))
    case InsWaitMutex(item) => if m.mutex == 0 then (m, t) else (m.(mutex := m.mutex - 1), InsLoadRear(item))
    case InsLoadRear(item) => (m, InsStoreRear(item, m.rear))
    case InsStoreRear(item, r) => (m.(rear := r + 1), InsStoreBuf(item, r + 1))
    case InsStoreBuf(item, r) =>
      if m.n == 0 then (m, t)
      else (m.(buf := m.buf[Slot(r, m.n) := item], inserted := m.inserted + [item]), InsPostMutex)
    case InsPostMutex => (m.(mutex := m.mutex + 1), InsPostItems)
    case InsPostItems => (m.(items := m.items + 1), Idle)
    case RemWaitItems => if m.items == 0 then (m, t) else (m.(items := m.items - 1), RemWaitMutex)
    case RemWaitMutex => if m.mutex == 0 then (m, t) else (m.(mutex := m.mutex - 1), RemLoadFront)
    case RemLoadFront => (m, RemStoreFront(m.front))
    case RemStoreFront(f) => (m.(front := f + 1), RemLoadBuf(f + 1))
    case RemLoadBuf(f) =>
      if m.n == 0 then (m, t)
      else (m.(removed := m.removed + [m.buf[Slot(f, m.n)]]), RemPostMutex(m.buf[Slot(f, m.n)]))
    case RemPostMutex(item) => (m.(mutex := m.mutex + 1), RemPostSlots(item))
    case RemPostSlots(item) => (m.(slots := m.slots + 1, returned := m.returned + multiset{item}), Idle)
  }

  /** The scheduled thread moves. */
  function Step(s: State, c: Choice): State
    requires |s.sh.buf| == s.sh.n
  {
    if c.thread >= |s.threads| then s
    else
      var (m, t) := Move(s.sh, s.threads[c.thread], c.call);
      State(m, s.threads[c.thread := t])
  }

  /** Any interleaving: a schedule from the initial state. */
  ghost function Run(n: nat, threads: nat, schedule: seq<Choice>): (s: State)
    ensures |s.sh.buf| == s.sh.n == n && |s.threads| == threads
  {
    if schedule == [] then Init(n, threads)
    else Step(Run(n, threads, schedule[..|schedule| - 1]), schedule[|schedule| - 1])
  }

  // The groups of threads the invariant counts.

  predicate InCs(t: Thread) {
    t.InsLoadRear? || t.InsStoreRear? || t.InsStoreBuf? || t.InsPostMutex?
    || t.RemLoadFront? || t.RemStoreFront? || t.RemLoadBuf? || t.RemPostMutex?
  }

  /** Has taken a slot and not yet filled it. */
  predicate HoldsSlot(t: Thread) {
    t.InsWaitMutex? || t.InsLoadRear? || t.InsStoreRear? || t.InsStoreBuf?
  }

  /** Has filled a slot and not yet announced it. */
  predicate Announcing(t: Thread) {
    t.InsPostMutex? || t.InsPostItems?
  }

  /** Has taken an item and not yet read it. */
  predicate HoldsItem(t: Thread) {
    t.RemWaitMutex? || t.RemLoadFront? || t.RemStoreFront? || t.RemLoadBuf?
  }

  /** Has read an item and not yet given its slot back. */
  predicate Returning(t: Thread) {
    t.RemPostMutex? || t.RemPostSlots?
  }

  predicate RearMoved(t: Thread) { t.InsStoreBuf? }

  predicate FrontMoved(t: Thread) { t.RemLoadBuf? }

  ghost function Count(ts: seq<Thread>, p: Thread -> bool): nat {
    if ts == [] then 0 else Bit(p(ts[0])) + Count(ts[1..], p)
  }

  /** One thread moves: the count changes by what that thread adds and takes away. */
  lemma {:induction false} CountUpdate(ts: seq<Thread>, i: nat, x: Thread, p: Thread -> bool)
    requires i < |ts|
    ensures Count(ts[i := x], p) == Count(ts, p) - Bit(p(ts[i])) + Bit(p(x))
    ensures Bit(p(ts[i])) <= Count(ts, p)
  {
    if i == 0 {
      assert ts[0 := x][1..] == ts[1..];
    } else {
      CountUpdate(ts[1..], i - 1, x, p);
      assert ts[i := x][1..] == ts[1..][i - 1 := x];
    }
  }

  lemma {:induction false} CountNone(ts: seq<Thread>, p: Thread -> bool)
    requires forall i :: 0 <= i < |ts| ==> !p(ts[i])
    ensures Count(ts, p) == 0
  {
    if ts != [] {
      CountNone(ts[1..], p);
    }
  }

  /** Two different threads of a group are counted twice. */
  lemma {:induction false} CountTwo(ts: seq<Thread>, i: nat, j: nat, p: Thread -> bool)
    requires i < j < |ts| && p(ts[i]) && p(ts[j])
    ensures Count(ts, p) >= 2
  {
    if i == 0 {
      CountUpdate(ts[1..], j - 1, Idle, p);
    } else {
      CountTwo(ts[1..], i - 1, j - 1, p);
    }
  }

  /** The items that threads have in hand, f saying what each one has. */
  ghost function Gather(ts: seq<Thread>, f: Thread -> multiset<int>): multiset<int> {
    if ts == [] then multiset{} else f(ts[0]) + Gather(ts[1..], f)
  }

  /** Has been given an item to insert and not yet stored it. */
  predicate HasItem(t: Thread) {
    t.InsWaitSlots? || t.InsWaitMutex? || t.InsLoadRear? || t.InsStoreRear? || t.InsStoreBuf?
  }

  function Pending(t: Thread): multiset<int> {
    if HasItem(t) then multiset{t.item} else multiset{}
  }

  /** What a remove has loaded and not yet returned. */
  function Carried(t: Thread): multiset<int> {
    if t.RemPostMutex? || t.RemPostSlots? then multiset{t.item} else multiset{}
  }

  lemma {:induction false} GatherUpdate(ts: seq<Thread>, i: nat, x: Thread, f: Thread -> multiset<int>)
    requires i < |ts|
    ensures Gather(ts[i := x], f) + f(ts[i]) == Gather(ts, f) + f(x)
  {
    var rest := ts[1..];
    if i == 0 {
      assert ts[0 := x][1..] == rest;
    } else {
      GatherUpdate(rest, i - 1, x, f);
      assert ts[i := x][1..] == rest[i - 1 := x];
      Regroup(f(ts[0]), Gather(rest[i - 1 := x], f), f(rest[i - 1]), Gather(rest, f), f(x));
    }
  }

  lemma {:induction false} GatherNone(ts: seq<Thread>, f: Thread -> multiset<int>)
    requires forall i :: 0 <= i < |ts| ==> f(ts[i]) == multiset{}
    ensures Gather(ts, f) == multiset{}
  {
    if ts != [] {
      GatherNone(ts[1..], f);
    }
  }

  lemma Regroup(a: multiset<int>, b: multiset<int>, c: multiset<int>, d: multiset<int>, e: multiset<int>)
    requires b + c == d + e
    ensures (a + b) + c == (a + d) + e
  {
    assert (a + b) + c == a + (b + c);
    assert (a + d) + e == a + (d + e);
  }

  /** slots, items and the threads in between account for all n slots. */
  ghost predicate Accounts(s: State) {
    && s.sh.mutex + Count(s.threads, InCs) == 1
    && s.sh.items + Count(s.threads, HoldsItem) + Count(s.threads, Announcing) == |s.sh.inserted| - |s.sh.removed|
    && s.sh.slots + Count(s.threads, HoldsSlot) + Count(s.threads, Returning)
       + |s.sh.inserted| - |s.sh.removed| == s.sh.n
    && s.sh.rear == |s.sh.inserted| + Count(s.threads, RearMoved)
    && s.sh.front == |s.sh.removed| + Count(s.threads, FrontMoved)
  }

  /** What a thread in the critical section has loaded is current. */
  ghost predicate LocalOk(m: Shared, t: Thread) {
    && (t.InsStoreRear? ==> t.r == m.rear)
    && (t.InsStoreBuf? ==> t.r == m.rear)
    && (t.RemStoreFront? ==> t.f == m.front)
    && (t.RemLoadBuf? ==> t.f == m.front)
  }

  /** Slot (k + 1) % n holds the k-th value for every k stored and not yet loaded. */
  ghost predicate Stored(m: Shared) {
    && |m.buf| == m.n
    && |m.removed| <= |m.inserted|
    && forall k :: |m.removed| <= k < |m.inserted| ==> m.n > 0 && m.buf[Slot(k + 1, m.n)] == m.inserted[k]
  }

  /** The values loaded are the first ones stored, and the others are in their slots. */
  ghost predicate InOrder(m: Shared) {
    Stored(m) && m.removed == m.inserted[..|m.removed|]
  }

  ghost predicate Inv(s: State) {
    && Accounts(s)
    && InOrder(s.sh)
    && (forall i :: 0 <= i < |s.threads| ==> LocalOk(s.sh, s.threads[i]))
    && multiset(s.sh.removed) == s.sh.returned + Gather(s.threads, Carried)
  }

  lemma {:induction false} CountWithin(ts: seq<Thread>, p: Thread -> bool, q: Thread -> bool)
    requires forall t :: p(t) ==> q(t)
    ensures Count(ts, p) <= Count(ts, q)
  {
    if ts != [] {
      CountWithin(ts[1..], p, q);
    }
  }

  /** At most one thread is between P(mutex) and V(mutex). */
  lemma MutualExclusion(s: State, i: nat, j: nat)
    requires Accounts(s) && i < |s.threads| && j < |s.threads|
    requires InCs(s.threads[i]) && InCs(s.threads[j])
    ensures i == j
  {
    if i < j {
      CountTwo(s.threads, i, j, InCs);
    } else if j < i {
      CountTwo(s.threads, j, i, InCs);
    }
  }

  /** What a step does to the count of one group. */
  lemma StepCount(s: State, c: Choice, p: Thread -> bool)
    requires |s.sh.buf| == s.sh.n && c.thread < |s.threads|
    ensures var x := Move(s.sh, s.threads[c.thread], c.call).1;
            Count(Step(s, c).threads, p) == Count(s.threads, p) - Bit(p(s.threads[c.thread])) + Bit(p(x))
    ensures Bit(p(s.threads[c.thread])) <= Count(s.threads, p)
  {
    CountUpdate(s.threads, c.thread, Move(s.sh, s.threads[c.thread], c.call).1, p);
  }

  /** A move changes each semaphore by what its thread takes along or gives back. */
  lemma MoveBalance(m: Shared, t: Thread, call: Call)
    requires |m.buf| == m.n
    ensures var (m', t') := Move(m, t, call);
            && m'.mutex + Bit(InCs(t')) == m.mutex + Bit(InCs(t))
            && m'.items + Bit(HoldsItem(t')) + Bit(Announcing(t')) - |m'.inserted| + |m'.removed|
               == m.items + Bit(HoldsItem(t)) + Bit(Announcing(t)) - |m.inserted| + |m.removed|
            && m'.slots + Bit(HoldsSlot(t')) + Bit(Returning(t')) + |m'.inserted| - |m'.removed|
               == m.slots + Bit(HoldsSlot(t)) + Bit(Returning(t)) + |m.inserted| - |m.removed|
            && m'.n == m.n && |m'.buf| == m'.n
  {
  }

  /** And rear and front, provided the thread has loaded their current values. */
  lemma MoveEnds(m: Shared, t: Thread, call: Call)
    requires |m.buf| == m.n && LocalOk(m, t)
    ensures var (m', t') := Move(m, t, call);
            && m'.rear - |m'.inserted| - Bit(RearMoved(t')) == m.rear - |m.inserted| - Bit(RearMoved(t))
            && m'.front - |m'.removed| - Bit(FrontMoved(t')) == m.front - |m.removed| - Bit(FrontMoved(t))
            && LocalOk(m', t')
            && (!InCs(t) ==> m'.rear == m.rear && m'.front == m.front)
  {
  }

  lemma StepAccounts(s: State, c: Choice)
    requires Accounts(s) && |s.sh.buf| == s.sh.n && c.thread < |s.threads| && LocalOk(s.sh, s.threads[c.thread])
    ensures Accounts(Step(s, c))
  {
    hide Move;
    StepCount(s, c, InCs);
    StepCount(s, c, HoldsSlot);
    StepCount(s, c, Announcing);
    StepCount(s, c, HoldsItem);
    StepCount(s, c, Returning);
    StepCount(s, c, RearMoved);
    StepCount(s, c, FrontMoved);
    MoveBalance(s.sh, s.threads[c.thread], c.call);
    MoveEnds(s.sh, s.threads[c.thread], c.call);
  }

  /** The thread in the critical section is the only one that can have moved rear or front. */
  lemma AloneInCs(s: State, t: nat)
    requires Accounts(s) && t < |s.threads| && InCs(s.threads[t])
    ensures Count(s.threads, InCs) == 1
    ensures Count(s.threads, RearMoved) == Bit(RearMoved(s.threads[t]))
    ensures Count(s.threads, FrontMoved) == Bit(FrontMoved(s.threads[t]))
  {
    CountUpdate(s.threads, t, Idle, InCs);
    CountUpdate(s.threads, t, Idle, RearMoved);
    CountUpdate(s.threads, t, Idle, FrontMoved);
    CountWithin(s.threads[t := Idle], RearMoved, InCs);
    CountWithin(s.threads[t := Idle], FrontMoved, InCs);
  }

  lemma ModApart(a: nat, b: nat, n: nat)
    requires 0 < b - a < n
    ensures Slot(a, n) != Slot(b, n)
  {
    var q := b / n - a / n;
    assert b - a == n * q + (b % n - a % n);
    assert q >= 1 ==> n * q >= n;
    assert q <= 0 ==> n * q <= 0;
  }

  /** The store of sbuf_insert goes to the slot of the next value, and no unread value is there. */
  lemma StoreIsSafe(s: State, t: nat)
    requires Inv(s) && t < |s.threads| && s.threads[t].InsStoreBuf?
    ensures s.sh.n > 0 && s.threads[t].r == |s.sh.inserted| + 1
    ensures |s.sh.inserted| - |s.sh.removed| < s.sh.n
    ensures forall j :: |s.sh.removed| < j <= |s.sh.inserted| ==> Slot(j, s.sh.n) != Slot(s.threads[t].r, s.sh.n)
  {
    AloneInCs(s, t);
    CountUpdate(s.threads, t, Idle, HoldsSlot);
    assert LocalOk(s.sh, s.threads[t]);
    forall j | |s.sh.removed| < j <= |s.sh.inserted| ensures Slot(j, s.sh.n) != Slot(s.threads[t].r, s.sh.n) {
      ModApart(j, |s.sh.inserted| + 1, s.sh.n);
    }
  }

  /** The load of sbuf_remove reads a slot that has been written, and it holds the oldest unread value. */
  lemma LoadIsSafe(s: State, t: nat)
    requires Inv(s) && t < |s.threads| && s.threads[t].RemLoadBuf?
    ensures s.sh.n > 0 && |s.sh.removed| < |s.sh.inserted|
    ensures s.sh.buf[Slot(s.threads[t].f, s.sh.n)] == s.sh.inserted[|s.sh.removed|]
  {
    AloneInCs(s, t);
    CountUpdate(s.threads, t, Idle, HoldsItem);
    assert LocalOk(s.sh, s.threads[t]);
  }

  /** The move that stores adds the newest value ... */
  lemma StoreKeeps(m: Shared, t: Thread, call: Call)
    requires InOrder(m) && t.InsStoreBuf?
    requires m.n > 0 && t.r == |m.inserted| + 1 && |m.inserted| - |m.removed| < m.n
    ensures InOrder(Move(m, t, call).0)
  {
    hide Slot;
    var m' := Move(m, t, call).0;
    assert m'.inserted == m.inserted + [t.item] && m'.removed == m.removed && m'.n == m.n;
    forall k | |m'.removed| <= k < |m'.inserted| ensures m'.buf[Slot(k + 1, m'.n)] == m'.inserted[k] {
      if k < |m.inserted| {
        ModApart(k + 1, t.r, m.n);
      }
    }
  }

  /** ... the move that loads takes the oldest one ... */
  lemma LoadKeeps(m: Shared, t: Thread, call: Call)
    requires InOrder(m) && t.RemLoadBuf?
    requires m.n > 0 && |m.removed| < |m.inserted| && m.buf[Slot(t.f, m.n)] == m.inserted[|m.removed|]
    ensures InOrder(Move(m, t, call).0)
  {
    hide Slot;
    var m' := Move(m, t, call).0;
    assert m'.removed == m.removed + [m.inserted[|m.removed|]];
    assert m'.inserted == m.inserted && m'.buf == m.buf && m'.n == m.n;
  }

  /** ... and no other move touches buffer or history. */
  lemma OthersKeep(m: Shared, t: Thread, call: Call)
    requires InOrder(m) && !t.InsStoreBuf? && !t.RemLoadBuf?
    ensures InOrder(Move(m, t, call).0)
  {
    hide Slot;
    var m' := Move(m, t, call).0;
    assert m'.n == m.n && m'.buf == m.buf && m'.inserted == m.inserted && m'.removed == m.removed;
  }

  lemma MoveStored(m: Shared, t: Thread, call: Call)
    requires InOrder(m)
    requires t.InsStoreBuf? ==> m.n > 0 && t.r == |m.inserted| + 1 && |m.inserted| - |m.removed| < m.n
    requires t.RemLoadBuf? ==> m.n > 0 && |m.removed| < |m.inserted| && m.buf[Slot(t.f, m.n)] == m.inserted[|m.removed|]
    ensures InOrder(Move(m, t, call).0)
  {
    hide Slot, Move, InOrder;
    if t.InsStoreBuf? {
      StoreKeeps(m, t, call);
    } else if t.RemLoadBuf? {
      LoadKeeps(m, t, call);
    } else {
      OthersKeep(m, t, call);
    }
  }

  /** What is loaded is carried ... */
  lemma LoadCarries(m: Shared, t: Thread, call: Call)
    requires |m.buf| == m.n && t.RemLoadBuf? && m.n > 0
    ensures var (m', t') := Move(m, t, call);
            multiset(m'.removed) == multiset(m.removed) + Carried(t') && m'.returned == m.returned
              && Carried(t) == multiset{}
  {
  }

  /** ... until it is returned. */
  lemma ReturnCarries(m: Shared, t: Thread, call: Call)
    requires |m.buf| == m.n && t.RemPostSlots?
    ensures var (m', t') := Move(m, t, call);
            m'.removed == m.removed && m'.returned == m.returned + Carried(t) && Carried(t') == multiset{}
  {
  }

  lemma OthersRecord(m: Shared, t: Thread, call: Call)
    requires |m.buf| == m.n && !(t.RemLoadBuf? && m.n > 0) && !t.RemPostSlots?
    ensures var m' := Move(m, t, call).0; m'.removed == m.removed && m'.returned == m.returned
  {
    hide Slot;
  }

  lemma OthersCarry(m: Shared, t: Thread, call: Call)
    requires |m.buf| == m.n && !(t.RemLoadBuf? && m.n > 0) && !t.RemPostSlots?
    ensures Carried(Move(m, t, call).1) == Carried(t)
  {
    hide Slot;
    var t' := Move(m, t, call).1;
    assert Returning(t') == Returning(t);
    assert t.RemPostMutex? ==> t'.item == t.item;
  }

  lemma StepReturns(s: State, c: Choice)
    requires |s.sh.buf| == s.sh.n && c.thread < |s.threads|
    requires multiset(s.sh.removed) == s.sh.returned + Gather(s.threads, Carried)
    ensures var s' := Step(s, c); multiset(s'.sh.removed) == s'.sh.returned + Gather(s'.threads, Carried)
  {
    hide Move, Carried;
    var t := s.threads[c.thread];
    var (m', t') := Move(s.sh, t, c.call);
    GatherUpdate(s.threads, c.thread, t', Carried);
    var h, h' := Gather(s.threads, Carried), Gather(Step(s, c).threads, Carried);
    if t.RemLoadBuf? && s.sh.n > 0 {
      LoadCarries(s.sh, t, c.call);
      assert h' == h + Carried(t');
    } else if t.RemPostSlots? {
      ReturnCarries(s.sh, t, c.call);
      assert h' + Carried(t) == h;
    } else {
      OthersRecord(s.sh, t, c.call);
      OthersCarry(s.sh, t, c.call);
      Cancel(h', h, Carried(t));
    }
  }

  lemma Cancel(a: multiset<int>, b: multiset<int>, c: multiset<int>)
    requires a + c == b + c
    ensures a == b
  {
    assert forall x :: a[x] + c[x] == (a + c)[x] == (b + c)[x] == b[x] + c[x];
  }

  lemma StepKeepsInv(s: State, c: Choice)
    requires Inv(s)
    ensures Inv(Step(s, c))
  {
    hide Move, InOrder, LocalOk, InCs;
    if c.thread < |s.threads| {
      assert LocalOk(s.sh, s.threads[c.thread]);
      StoredSize(s);
      StepAccounts(s, c);
      StepReturns(s, c);
      AtBuffer(s, c.thread);
      MoveStored(s.sh, s.threads[c.thread], c.call);
      forall i | 0 <= i < |s.threads| ensures LocalOk(Step(s, c).sh, Step(s, c).threads[i]) {
        StepLocal(s, c, i);
      }
    }
  }

  lemma StoredSize(s: State)
    requires InOrder(s.sh)
    ensures |s.sh.buf| == s.sh.n
  {
  }

  /** StoreIsSafe and LoadIsSafe, for whichever of the two the thread is about to do. */
  lemma AtBuffer(s: State, t: nat)
    requires Inv(s) && t < |s.threads|
    ensures var th, m := s.threads[t], s.sh;
            && (th.InsStoreBuf? ==> m.n > 0 && th.r == |m.inserted| + 1 && |m.inserted| - |m.removed| < m.n)
            && (th.RemLoadBuf? ==>
                 m.n > 0 && |m.removed| < |m.inserted| && m.buf[Slot(th.f, m.n)] == m.inserted[|m.removed|])
  {
    if s.threads[t].InsStoreBuf? {
      StoreIsSafe(s, t);
    } else if s.threads[t].RemLoadBuf? {
      LoadIsSafe(s, t);
    }
  }

  lemma StepLocal(s: State, c: Choice, i: nat)
    requires Inv(s) && i < |s.threads| && c.thread < |s.threads|
    ensures LocalOk(Step(s, c).sh, Step(s, c).threads[i])
  {
    hide Move, InOrder, Gather;
    StoredSize(s);
    assert LocalOk(s.sh, s.threads[i]) && LocalOk(s.sh, s.threads[c.thread]);
    MoveEnds(s.sh, s.threads[c.thread], c.call);
    if i != c.thread && InCs(s.threads[i]) && InCs(s.threads[c.thread]) {
      MutualExclusion(s, i, c.thread);
    }
  }

  /** The invariant holds after every schedule, for any number of threads and slots. */
  lemma {:induction false} RunKeepsInv(n: nat, threads: nat, schedule: seq<Choice>)
    ensures Inv(Run(n, threads, schedule))
  {
    if schedule == [] {
      var ts := Init(n, threads).threads;
      CountNone(ts, InCs);
      CountNone(ts, HoldsSlot);
      CountNone(ts, Announcing);
      CountNone(ts, HoldsItem);
      CountNone(ts, Returning);
      CountNone(ts, RearMoved);
      CountNone(ts, FrontMoved);
      GatherNone(ts, Carried);
    } else {
      RunKeepsInv(n, threads, schedule[..|schedule| - 1]);
      StepKeepsInv(Run(n, threads, schedule[..|schedule| - 1]), schedule[|schedule| - 1]);
    }
  }

  /** What a scheduling decision asks the buffer to store: an idle thread calls sbuf_insert. */
  function Started(t: Thread, call: Call): multiset<int> {
    if t.Idle? && call.Insert? then multiset{call.item} else multiset{}
  }

  /** The items of all the sbuf_insert calls made so far. */
  ghost function Called(n: nat, threads: nat, schedule: seq<Choice>): multiset<int> {
    if schedule == [] then multiset{}
    else
      var init, c := schedule[..|schedule| - 1], schedule[|schedule| - 1];
      Called(n, threads, init) +
      if c.thread < threads then Started(Run(n, threads, init).threads[c.thread], c.call) else multiset{}
  }

  /** A move starts a call, stores the item of one, or does neither. */
  lemma MoveItems(m: Shared, t: Thread, call: Call)
    requires |m.buf| == m.n
    ensures var (m', t') := Move(m, t, call);
            multiset(m'.inserted) + Pending(t') == multiset(m.inserted) + (Pending(t) + Started(t, call))
  {
    hide Slot;
    if t.Idle? {
      StartItems(m, t, call);
    } else if t.InsStoreBuf? {
      StoreItems(m, t, call);
    } else {
      KeepItems(m, t, call);
    }
  }

  lemma StartItems(m: Shared, t: Thread, call: Call)
    requires |m.buf| == m.n && t.Idle?
    ensures var (m', t') := Move(m, t, call); m' == m && Pending(t') == Started(t, call) && Pending(t) == multiset{}
  {
  }

  lemma StoreItems(m: Shared, t: Thread, call: Call)
    requires |m.buf| == m.n && t.InsStoreBuf?
    ensures var (m', t') := Move(m, t, call); multiset(m'.inserted) + Pending(t') == multiset(m.inserted) + Pending(t)
    ensures Started(t, call) == multiset{}
  {
    hide Slot;
  }

  lemma KeepItems(m: Shared, t: Thread, call: Call)
    requires |m.buf| == m.n && !t.Idle? && !t.InsStoreBuf?
    ensures var (m', t') := Move(m, t, call); m'.inserted == m.inserted && Pending(t') == Pending(t)
    ensures Started(t, call) == multiset{}
  {
    hide Slot;
    KeepInHand(m, t, call);
  }

  lemma KeepInHand(m: Shared, t: Thread, call: Call)
    requires |m.buf| == m.n && !t.Idle? && !t.InsStoreBuf?
    ensures var t' := Move(m, t, call).1; (HasItem(t') <==> HasItem(t)) && (HasItem(t) ==> t'.item == t.item)
  {
    hide Slot;
  }

  /** Every item passed to sbuf_insert is stored once, or is in the hands of its caller. */
  lemma {:induction false} ItemsConserved(n: nat, threads: nat, schedule: seq<Choice>)
    ensures var s := Run(n, threads, schedule);
            multiset(s.sh.inserted) + Gather(s.threads, Pending) == Called(n, threads, schedule)
  {
    hide Move, Pending, Started;
    if schedule == [] {
      NothingPending(n, threads);
    } else {
      var init, c := schedule[..|schedule| - 1], schedule[|schedule| - 1];
      ItemsConserved(n, threads, init);
      var s := Run(n, threads, init);
      if c.thread < threads {
        MoveItems(s.sh, s.threads[c.thread], c.call);
        var t' := Move(s.sh, s.threads[c.thread], c.call).1;
        GatherUpdate(s.threads, c.thread, t', Pending);
        Balance(multiset(s.sh.inserted), Gather(s.threads, Pending), Pending(s.threads[c.thread]),
                Started(s.threads[c.thread], c.call), multiset(Step(s, c).sh.inserted),
                Gather(Step(s, c).threads, Pending), Pending(t'));
      }
    }
  }

  lemma NothingPending(n: nat, threads: nat)
    ensures Gather(Init(n, threads).threads, Pending) == multiset{}
  {
    GatherNone(Init(n, threads).threads, Pending);
  }

  lemma Balance(a: multiset<int>, g: multiset<int>, p: multiset<int>, q: multiset<int>,
                a': multiset<int>, g': multiset<int>, p': multiset<int>)
    requires a' + p' == a + (p + q) && g' + p == g + p'
    ensures a' + g' == (a + g) + q
  {
    forall x ensures (a' + g')[x] == ((a + g) + q)[x] {
      assert (a' + p')[x] == (a + (p + q))[x] && (g' + p)[x] == (g + p')[x];
    }
  }

  /**
    In any interleaving the values removed, in front order, are a prefix of the values inserted, in
    rear order; the values inserted are the items of the calls that have stored theirs; and every
    removed value has been returned once or is about to be.
    */
  lemma FifoSafety(n: nat, threads: nat, schedule: seq<Choice>)
    ensures var s := Run(n, threads, schedule);
            && s.sh.removed <= s.sh.inserted && |s.sh.inserted| - |s.sh.removed| <= n
            && multiset(s.sh.inserted) + Gather(s.threads, Pending) == Called(n, threads, schedule)
            && s.sh.returned + Gather(s.threads, Carried) == multiset(s.sh.removed) <= multiset(s.sh.inserted)
            && ((forall i :: 0 <= i < threads ==> s.threads[i].Idle?) ==> s.sh.returned == multiset(s.sh.removed))
  {
    hide Move, Called, Pending, Run, Slot;
    RunKeepsInv(n, threads, schedule);
    ItemsConserved(n, threads, schedule);
    var s := Run(n, threads, schedule);
    assert s.sh.inserted == s.sh.removed + s.sh.inserted[|s.sh.removed|..];
    if forall i :: 0 <= i < threads ==> s.threads[i].Idle? {
      GatherNone(s.threads, Carried);
    }
  }

  /** In any interleaving no unread slot is overwritten and no unwritten slot is read. */
  lemma BufferSafety(n: nat, threads: nat, schedule: seq<Choice>, t: nat)
    requires t < threads
    ensures var s := Run(n, threads, schedule);
            var m, th := s.sh, s.threads[t];
            && (th.InsStoreBuf? ==>
                 n > 0 && forall j :: |m.removed| < j <= |m.inserted| ==> Slot(j, n) != Slot(th.r, n))
            && (th.RemLoadBuf? ==>
                 n > 0 && |m.removed| < |m.inserted| && m.buf[Slot(th.f, n)] == m.inserted[|m.removed|])
  {
    RunKeepsInv(n, threads, schedule);
    var s := Run(n, threads, schedule);
    if s.threads[t].InsStoreBuf? {
      StoreIsSafe(s, t);
    } else if s.threads[t].RemLoadBuf? {
      LoadIsSafe(s, t);
    }
  }

  /** The in-flight threads: past their first P, and not past their last V. */
  ghost function InFlight(s: State): nat {
    Count(s.threads, HoldsSlot) + Count(s.threads, Announcing)
    + Count(s.threads, HoldsItem) + Count(s.threads, Returning)
  }

  /** slots + items + in-flight inserts and removes = n, in every reachable state. */
  lemma SlotAccounting(n: nat, threads: nat, schedule: seq<Choice>)
    ensures var s := Run(n, threads, schedule); s.sh.slots + s.sh.items + InFlight(s) == n
    ensures var s := Run(n, threads, schedule);
            forall i, j :: 0 <= i < threads && 0 <= j < threads && InCs(s.threads[i]) && InCs(s.threads[j]) ==> i == j
  {
    RunKeepsInv(n, threads, schedule);
    var s := Run(n, threads, schedule);
    forall i, j | 0 <= i < threads && 0 <= j < threads && InCs(s.threads[i]) && InCs(s.threads[j]) ensures i == j {
      MutualExclusion(s, i, j);
    }
  }

  /** Waiting on a semaphore that is zero. */
  predicate Blocked(s: State, t: Thread) {
    || (t.InsWaitSlots? && s.sh.slots == 0)
    || (t.RemWaitItems? && s.sh.items == 0)
    || ((t.InsWaitMutex? || t.RemWaitMutex?) && s.sh.mutex == 0)
  }

  /** Every call in progress is blocked. */
  ghost predicate Stuck(s: State) {
    && (exists i :: 0 <= i < |s.threads| && !s.threads[i].Idle?)
    && forall i :: 0 <= i < |s.threads| ==> s.threads[i].Idle? || Blocked(s, s.threads[i])
  }

  /** A thread that may divide by n stays where it is exactly when it is blocked. */
  lemma MoveBlocked(s: State, t: Thread, call: Call)
    requires |s.sh.buf| == s.sh.n && (t.InsStoreBuf? || t.RemLoadBuf? ==> s.sh.n > 0)
    ensures Move(s.sh, t, call).1 == t <==> Blocked(s, t)
    ensures Blocked(s, t) ==> Move(s.sh, t, call).0 == s.sh
  {
    hide Slot;
  }

  /** A choice changes nothing exactly when its thread does not exist or is blocked. */
  lemma BlockedMeansNoStep(n: nat, threads: nat, schedule: seq<Choice>, c: Choice)
    ensures var s := Run(n, threads, schedule);
            Step(s, c) == s <==> c.thread >= threads || Blocked(s, s.threads[c.thread])
  {
    hide Move, Blocked, InOrder, Accounts;
    RunKeepsInv(n, threads, schedule);
    var s := Run(n, threads, schedule);
    if c.thread < threads {
      AtBuffer(s, c.thread);
      MoveBlocked(s, s.threads[c.thread], c.call);
      var t' := Move(s.sh, s.threads[c.thread], c.call).1;
      assert Step(s, c).threads[c.thread] == t';
    }
  }

  /** When all calls are blocked, they are inserts into a full buffer or removes from an empty one. */
  lemma StuckMeansFullOrEmpty(n: nat, threads: nat, schedule: seq<Choice>)
    requires n >= 1 && Stuck(Run(n, threads, schedule))
    ensures var s := Run(n, threads, schedule);
            || (s.sh.slots == 0 && s.sh.items == n && |s.sh.inserted| - |s.sh.removed| == n
                && forall i :: 0 <= i < threads ==> s.threads[i].Idle? || s.threads[i].InsWaitSlots?)
            || (s.sh.items == 0 && s.sh.slots == n && s.sh.inserted == s.sh.removed
                && forall i :: 0 <= i < threads ==> s.threads[i].Idle? || s.threads[i].RemWaitItems?)
  {
    RunKeepsInv(n, threads, schedule);
    var s := Run(n, threads, schedule);
    CountNone(s.threads, InCs);
    CountNone(s.threads, HoldsSlot);
    CountNone(s.threads, Announcing);
    CountNone(s.threads, HoldsItem);
    CountNone(s.threads, Returning);
  }
}
