/** Whose items the buffer receives, and in which order. */
module SbufCalls {
  import opened Sequences
  import opened Sbuf

  /** A store to the buffer: the thread that made it, and the item. */
  datatype Store = Store(thread: nat, item: int)

  /** The store that one step makes, if it makes one. */
  function StepStores(s: State, c: Choice): seq<Store> {
    if c.thread < |s.threads| && s.threads[c.thread].InsStoreBuf? && s.sh.n > 0
    then [Store(c.thread, s.threads[c.thread].item)]
    else []
  }

  /** The item of the call that thread i makes in one step, if it makes one. */
  function StepCalls(s: State, c: Choice, i: nat): seq<int> {
    if c.thread == i < |s.threads| && s.threads[i].Idle? && c.call.Insert? then [c.call.item] else []
  }

  /** The stores made in a run, in order. */
  ghost function Stores(n: nat, threads: nat, schedule: seq<Choice>): seq<Store> {
    if schedule == [] then []
    else
      var init := schedule[..|schedule| - 1];
      Stores(n, threads, init) + StepStores(Run(n, threads, init), schedule[|schedule| - 1])
  }

  /** The items of the sbuf_insert calls of thread i, in the order it made them. */
  ghost function CalledBy(n: nat, threads: nat, schedule: seq<Choice>, i: nat): seq<int> {
    if schedule == [] then []
    else
      var init := schedule[..|schedule| - 1];
      CalledBy(n, threads, init, i) + StepCalls(Run(n, threads, init), schedule[|schedule| - 1], i)
  }

  /** The items that thread i has stored. */
  function By(stores: seq<Store>, i: nat): seq<int> {
    if stores == [] then []
    else
      var last := stores[|stores| - 1];
      By(stores[..|stores| - 1], i) + if last.thread == i then [last.item] else []
  }

  /** What a thread has been given to insert and not yet stored, as a sequence. */
  function InFlight(t: Thread): seq<int> {
    if HasItem(t) then [t.item] else []
  }

  function Items(stores: seq<Store>): seq<int> {
    seq(|stores|, k requires 0 <= k < |stores| => stores[k].item)
  }

  lemma MoveInserts(m: Shared, t: Thread, call: Call)
    requires |m.buf| == m.n
    ensures var (m', t') := Move(m, t, call);
            && m'.inserted == m.inserted + (if t.InsStoreBuf? && m.n > 0 then [t.item] else [])
            && InFlight(t') == (if t.Idle? && call.Insert? then [call.item]
                                else if t.InsStoreBuf? && m.n > 0 then [] else InFlight(t))
  {
    hide Slot;
    if t.Idle? {
    } else if t.InsStoreBuf? {
    } else {
      KeepItems(m, t, call);
      KeepInHand(m, t, call);
    }
  }

  /** The stores are what rear order lists. */
  lemma {:induction false} StoresAreInserted(n: nat, threads: nat, schedule: seq<Choice>)
    ensures Items(Stores(n, threads, schedule)) == Run(n, threads, schedule).sh.inserted
  {
    hide Move;
    if schedule != [] {
      var init, c := schedule[..|schedule| - 1], schedule[|schedule| - 1];
      StoresAreInserted(n, threads, init);
      var s := Run(n, threads, init);
      if c.thread < threads {
        MoveInserts(s.sh, s.threads[c.thread], c.call);
      }
    }
  }

  lemma {:induction false} ByAppend(a: seq<Store>, b: seq<Store>, i: nat)
    ensures By(a + b, i) == By(a, i) + By(b, i)
  {
    if b == [] {
      assert a + b == a;
    } else {
      var n := |b| - 1;
      assert (a + b)[..|a + b| - 1] == a + b[..n];
      ByAppend(a, b[..n], i);
    }
  }

  /** In one step a thread takes an item in hand, stores it, or does neither. */
  lemma StepOrder(s: State, c: Choice, i: nat)
    requires |s.sh.buf| == s.sh.n && i < |s.threads|
    ensures By(StepStores(s, c), i) + InFlight(Step(s, c).threads[i]) == InFlight(s.threads[i]) + StepCalls(s, c, i)
  {
    hide Move;
    if c.thread < |s.threads| {
      MoveInserts(s.sh, s.threads[c.thread], c.call);
    }
  }

  /**
    In any interleaving the items that a thread has stored are those of its own calls, in the order of
    the calls, up to the one in flight.
    */
  lemma {:induction false} ThreadOrder(n: nat, threads: nat, schedule: seq<Choice>, i: nat)
    requires i < threads
    ensures By(Stores(n, threads, schedule), i) + InFlight(Run(n, threads, schedule).threads[i])
            == CalledBy(n, threads, schedule, i)
  {
    hide Step, Move, InFlight, StepStores, StepCalls, By;
    if schedule == [] {
      NothingYet(n, threads, i);
    } else {
      var init, c := schedule[..|schedule| - 1], schedule[|schedule| - 1];
      ThreadOrder(n, threads, init, i);
      var s, stores := Run(n, threads, init), Stores(n, threads, init);
      StepOrder(s, c, i);
      ByAppend(stores, StepStores(s, c), i);
      Chain(By(stores, i), By(StepStores(s, c), i), InFlight(Run(n, threads, schedule).threads[i]),
            InFlight(s.threads[i]), StepCalls(s, c, i));
    }
  }

  lemma Chain(a: seq<int>, b: seq<int>, f': seq<int>, f: seq<int>, c: seq<int>)
    requires b + f' == f + c
    ensures (a + b) + f' == (a + f) + c
  {
    assert (a + b) + f' == a + (b + f');
    assert (a + f) + c == a + (f + c);
  }

  lemma NothingYet(n: nat, threads: nat, i: nat)
    requires i < threads
    ensures By([], i) + InFlight(Init(n, threads).threads[i]) == []
  {
  }

  /** With a single inserting thread, what is inserted is its calls' items in order, up to the one in flight. */
  lemma SingleProducer(n: nat, threads: nat, schedule: seq<Choice>, i: nat)
    requires i < threads && forall k :: 0 <= k < |schedule| && schedule[k].call.Insert? ==> schedule[k].thread == i
    ensures var s := Run(n, threads, schedule);
            s.sh.inserted + InFlight(s.threads[i]) == CalledBy(n, threads, schedule, i)
  {
    ThreadOrder(n, threads, schedule, i);
    StoresAreInserted(n, threads, schedule);
    OneStorer(n, threads, schedule, i);
    ByAll(Stores(n, threads, schedule), i);
  }

  lemma {:induction false} OneStorer(n: nat, threads: nat, schedule: seq<Choice>, i: nat)
    requires forall k :: 0 <= k < |schedule| && schedule[k].call.Insert? ==> schedule[k].thread == i
    ensures forall j :: 0 <= j < threads && j != i ==> !HasItem(Run(n, threads, schedule).threads[j])
    ensures forall k :: 0 <= k < |Stores(n, threads, schedule)| ==> Stores(n, threads, schedule)[k].thread == i
  {
    hide Move;
    if schedule != [] {
      var init, c := schedule[..|schedule| - 1], schedule[|schedule| - 1];
      OneStorer(n, threads, init, i);
      var s := Run(n, threads, init);
      if c.thread < threads {
        MoveInserts(s.sh, s.threads[c.thread], c.call);
      }
    }
  }

  lemma {:induction false} ByAll(stores: seq<Store>, i: nat)
    requires forall k :: 0 <= k < |stores| ==> stores[k].thread == i
    ensures By(stores, i) == Items(stores)
  {
    if stores != [] {
      ByAll(stores[..|stores| - 1], i);
    }
  }
}
