/** The cache simulator: line arrays, and an intrusive doubly linked recency list per set. */
module CacheSim {
  import opened Sequences
  import opened Powers
  import opened CacheTrace
  import Lru

  const NULL := -1

  /** A list node; pointers to nodes are their positions in the array, NULL is -1. */
  datatype Node = Node(index: int, prev: int, next: int)

  datatype Line = Line(valid: bool, tag: int)

  /** The k-th member of a list, or NULL beyond either end. */
  function At(order: seq<int>, k: int): int {
    if 0 <= k < |order| then order[k] else NULL
  }

  ghost predicate Members(n: int, order: seq<int>) {
    Distinct(order) && forall k :: 0 <= k < |order| ==> 0 <= order[k] < n
  }

  ghost predicate LinkedAt(nodes: seq<Node>, order: seq<int>, k: int)
    requires Members(|nodes|, order)
  {
    0 <= k < |order| ==> nodes[order[k]].prev == At(order, k - 1) && nodes[order[k]].next == At(order, k + 1)
  }

  /** The deque links the members of order, head first, and prev and next are mutual inverses. */
  ghost predicate Deque(nodes: seq<Node>, head: int, tail: int, order: seq<int>) {
    && Members(|nodes|, order)
    && (forall i :: 0 <= i < |nodes| ==> nodes[i].index == i)
    && head == At(order, 0) && tail == At(order, |order| - 1)
    && (forall k {:trigger LinkedAt(nodes, order, k)} :: LinkedAt(nodes, order, k))
  }

  /** The stores of deque_push. */
  function PushNodes(nodes: seq<Node>, tail: int, i: int): (r: seq<Node>)
    requires 0 <= i < |nodes| && NULL <= tail < |nodes|
    ensures |r| == |nodes|
  {
    var m := nodes[i := nodes[i].(prev := tail, next := NULL)];
    if tail != NULL then m[tail := m[tail].(next := i)] else m
  }

  /** The stores of deque_remove. */
  function RemoveNodes(nodes: seq<Node>, i: int): (r: seq<Node>)
    requires 0 <= i < |nodes| && NULL <= nodes[i].prev < |nodes| && NULL <= nodes[i].next < |nodes|
    ensures |r| == |nodes|
  {
    var p, n := nodes[i].prev, nodes[i].next;
    var m1 := if p != NULL then nodes[p := nodes[p].(next := n)] else nodes;
    var m2 := if n != NULL then m1[n := m1[n].(prev := p)] else m1;
    m2[i := m2[i].(prev := NULL, next := NULL)]
  }

  lemma DequePush(nodes: seq<Node>, head: int, tail: int, order: seq<int>, i: int)
    requires Deque(nodes, head, tail, order) && 0 <= i < |nodes| && i !in order
    ensures NULL <= tail < |nodes|
    ensures Deque(PushNodes(nodes, tail, i), if tail == NULL then i else head, i, order + [i])
  {
    var m, l := PushNodes(nodes, tail, i), order + [i];
    assert Members(|m|, l);
    forall k ensures LinkedAt(m, l, k) {
      assert LinkedAt(nodes, order, k);
    }
  }

  lemma DropMembers(n: int, order: seq<int>, k: int)
    requires Members(n, order) && 0 <= k < |order|
    ensures Members(n, Drop(order, k)) && order[k] !in Drop(order, k)
    ensures forall j :: 0 <= j < |order| - 1 ==> Drop(order, k)[j] == order[if j < k then j else j + 1]
  {
  }

  lemma RemovedAt(nodes: seq<Node>, head: int, tail: int, order: seq<int>, k: int, j: int)
    requires Deque(nodes, head, tail, order) && 0 <= k < |order| && 0 <= j < |order| && j != k
    ensures var i := order[k];
            && NULL <= nodes[i].prev < |nodes| && NULL <= nodes[i].next < |nodes|
            && var m := RemoveNodes(nodes, i);
               && m[order[j]].prev == (if j == k + 1 then nodes[i].prev else nodes[order[j]].prev)
               && m[order[j]].next == (if j == k - 1 then nodes[i].next else nodes[order[j]].next)
  {
    assert LinkedAt(nodes, order, k) && LinkedAt(nodes, order, j);
  }

  lemma RemovedLinked(nodes: seq<Node>, head: int, tail: int, order: seq<int>, k: int, j: int)
    requires Deque(nodes, head, tail, order) && 0 <= k < |order| && 0 <= j < |order| - 1
    requires Members(|nodes|, Drop(order, k))
    ensures var i := order[k];
            && NULL <= nodes[i].prev < |nodes| && NULL <= nodes[i].next < |nodes|
            && LinkedAt(RemoveNodes(nodes, i), Drop(order, k), j)
  {
    var n := if j < k then j else j + 1;
    assert LinkedAt(nodes, order, k) && LinkedAt(nodes, order, n);
    RemovedAt(nodes, head, tail, order, k, n);
  }

  lemma DequeRemove(nodes: seq<Node>, head: int, tail: int, order: seq<int>, k: int)
    requires Deque(nodes, head, tail, order) && 0 <= k < |order|
    ensures var i := order[k];
            && NULL <= nodes[i].prev < |nodes| && NULL <= nodes[i].next < |nodes|
            && Deque(RemoveNodes(nodes, i),
                     if nodes[i].prev == NULL then nodes[i].next else head,
                     if nodes[i].next == NULL then nodes[i].prev else tail,
                     Drop(order, k))
  {
    assert LinkedAt(nodes, order, k);
    var m, l := RemoveNodes(nodes, order[k]), Drop(order, k);
    DropMembers(|nodes|, order, k);
    forall j ensures LinkedAt(m, l, j) {
      if 0 <= j < |l| {
        RemovedLinked(nodes, head, tail, order, k, j);
      }
    }
  }

  /** Reading the tags of the members of a list. */
  ghost function Tags(lines: seq<Line>, order: seq<int>): (t: seq<int>)
    requires Members(|lines|, order)
    ensures |t| == |order|
  {
    seq(|order|, k requires 0 <= k < |order| => lines[order[k]].tag)
  }

  /** The valid lines are the members of the list, and their tags are distinct. */
  ghost predicate InStep(lines: seq<Line>, order: seq<int>) {
    && Members(|lines|, order)
    && (forall i :: 0 <= i < |lines| ==> (lines[i].valid <==> i in order))
    && Distinct(Tags(lines, order))
  }

  /** A valid line with the tag: where it is in the list. */
  lemma FindTag(lines: seq<Line>, order: seq<int>, i: int) returns (k: int)
    requires InStep(lines, order) && 0 <= i < |lines| && lines[i].valid
    ensures 0 <= k < |order| && order[k] == i && Tags(lines, order)[k] == lines[i].tag
  {
    k :| 0 <= k < |order| && order[k] == i;
  }

  lemma TagAbsent(lines: seq<Line>, order: seq<int>, tag: int)
    requires InStep(lines, order)
    requires forall j :: 0 <= j < |lines| ==> !(lines[j].valid && lines[j].tag == tag)
    ensures tag !in Tags(lines, order)
  {
    forall k | 0 <= k < |order| ensures Tags(lines, order)[k] != tag {
      assert order[k] in order;
    }
  }

  /** A hit: the line moves to the end of the list. */
  lemma TouchHit(E: int, lines: seq<Line>, order: seq<int>, k: int)
    requires InStep(lines, order) && 0 <= k < |order| <= E
    ensures InStep(lines, Drop(order, k) + [order[k]])
    ensures Tags(lines, Drop(order, k) + [order[k]]) == Lru.Touch(E, Tags(lines, order), Tags(lines, order)[k])
  {
    var t, l := Tags(lines, order), Drop(order, k) + [order[k]];
    DropMembers(|lines|, order, k);
    Lru.WithoutOne(t, k);
    assert Members(|lines|, l);
    assert Tags(lines, l) == t[..k] + t[k + 1..] + [t[k]];
    Lru.TouchKeeps(E, t, t[k]);
    forall i | 0 <= i < |lines| ensures i in l <==> i in order {
      DropIn(order, k, i);
    }
  }

  lemma DropIn(order: seq<int>, k: int, x: int)
    requires 0 <= k < |order|
    ensures x in order <==> x in Drop(order, k) || x == order[k]
  {
    assert order == order[..k] + [order[k]] + order[k + 1..];
  }

  /** A cold miss: an invalid line is filled and joins the list. */
  lemma TouchEmpty(E: int, lines: seq<Line>, order: seq<int>, i: int, tag: int)
    requires InStep(lines, order) && 0 <= i < |lines| == E && !lines[i].valid && tag !in Tags(lines, order)
    ensures i !in order && |order| < E
    ensures var lines' := lines[i := Line(true, tag)];
            InStep(lines', order + [i]) && Tags(lines', order + [i]) == Lru.Touch(E, Tags(lines, order), tag)
  {
    var lines', l := lines[i := Line(true, tag)], order + [i];
    MembersFew(E, l);
    assert Tags(lines', l) == Tags(lines, order) + [tag];
  }

  /** Distinct line numbers below n are at most n. */
  lemma MembersFew(n: int, l: seq<int>)
    requires n >= 0 && Members(n, l)
    ensures |l| <= n
  {
    Lru.DistinctSize(l);
    SubsetSize(Lru.ToSet(l), Below(n));
  }

  function Below(n: nat): (r: set<int>)
    ensures forall i :: i in r <==> 0 <= i < n
    ensures |r| == n
  {
    if n == 0 then {} else Below(n - 1) + {n - 1}
  }

  lemma SubsetSize(a: set<int>, b: set<int>)
    requires a <= b
    ensures |a| <= |b|
  {
    assert a + (b - a) == b;
  }

  /** With every line valid the set is full. */
  lemma AllValid(E: int, lines: seq<Line>, order: seq<int>)
    requires InStep(lines, order) && |lines| == E >= 1 && |order| <= E
    requires forall j :: 0 <= j < |lines| ==> lines[j].valid
    ensures |order| == E
  {
    Lru.DistinctSize(order);
    SubsetSize(Below(E), Lru.ToSet(order));
  }

  /** An eviction: the head line takes the new tag and moves to the end of the list. */
  lemma TouchFull(E: int, lines: seq<Line>, order: seq<int>, tag: int)
    requires InStep(lines, order) && |lines| == E == |order| && E >= 1 && tag !in Tags(lines, order)
    ensures var i := order[0];
            var lines', l := lines[i := lines[i].(tag := tag)], Drop(order, 0) + [i];
            0 <= i < E && InStep(lines', l) && Tags(lines', l) == Lru.Touch(E, Tags(lines, order), tag)
  {
    var i := order[0];
    var lines', l := lines[i := lines[i].(tag := tag)], Drop(order, 0) + [i];
    var t := Tags(lines, order);
    DropMembers(|lines|, order, 0);
    assert Members(|lines|, l);
    assert Tags(lines', l) == t[1..] + [tag];
    Lru.TouchKeeps(E, t, tag);
    forall j | 0 <= j < |lines| ensures j in l <==> j in order {
      DropIn(order, 0, j);
    }
  }

  datatype Outcome = Hit | Miss | Eviction

  class CacheSet {
    const lines: array<Line>
    const nodes: array<Node>
    const E: int
    var head: int
    var tail: int
    ghost var order: seq<int>

    ghost predicate Valid()
      reads this, lines, nodes
    {
      && E >= 1 && lines.Length == E && nodes.Length == E && |order| <= E
      && Deque(nodes[..], head, tail, order)
      && InStep(lines[..], order)
    }

    /** The tags held, the least recently used first. */
    ghost function Contents(): seq<int>
      requires Valid()
      reads this, lines, nodes
    {
      Tags(lines[..], order)
    }

    /** The line array of create_cache, with init_deque. */
    constructor (E: int)
      requires E >= 1
      ensures Valid() && Contents() == [] && this.E == E
      ensures fresh(lines) && fresh(nodes)
    {
      this.E := E;
      lines := new Line[E](_ => Line(false, 0));
      nodes := new Node[E](i => Node(i, NULL, NULL));
      head, tail, order := NULL, NULL, [];
      new;
      assert forall k :: LinkedAt(nodes[..], order, k);
    }

    /** deque_push */
    method Push(index: int)
      requires nodes.Length == E && Deque(nodes[..], head, tail, order) && 0 <= index < E && index !in order
      modifies this`head, this`tail, this`order, nodes
      ensures Deque(nodes[..], head, tail, order) && order == old(order) + [index]
    {
      DequePush(nodes[..], head, tail, order, index);
      ghost var m, t := nodes[..], tail;
      nodes[index] := nodes[index].(prev := tail, next := NULL);
      if tail != NULL {
        nodes[tail] := nodes[tail].(next := index);
      } else {
        head := index;
      }
      tail := index;
      assert nodes[..] == PushNodes(m, t, index);
      order := order + [index];
    }

    /** deque_remove, with the position of the node in the list. */
    method Remove(index: int, ghost k: int)
      requires nodes.Length == E && Deque(nodes[..], head, tail, order) && 0 <= k < |order| && order[k] == index
      modifies this`head, this`tail, this`order, nodes
      ensures Deque(nodes[..], head, tail, order) && order == Drop(old(order), k)
    {
      DequeRemove(nodes[..], head, tail, order, k);
      ghost var m := nodes[..];
      var prev, next := nodes[index].prev, nodes[index].next;
      if prev != NULL {
        nodes[prev] := nodes[prev].(next := next);
      } else {
        head := next;
      }
      if next != NULL {
        nodes[next] := nodes[next].(prev := prev);
      } else {
        tail := prev;
      }
      nodes[index] := nodes[index].(prev := NULL, next := NULL);
      assert nodes[..] == RemoveNodes(m, index);
      order := Drop(order, k);
    }

    /** deque_get_lru */
    function LruIndex(): (i: int)
      requires Valid() && order != []
      reads this, lines, nodes
      ensures i == order[0]
    {
      nodes[head].index
    }

    /** The hit branch of access_cache: line i moves to the recent end. */
    method MakeMostRecent(i: int, tag: int)
      requires Valid() && 0 <= i < E && lines[i].valid && lines[i].tag == tag
      modifies this`head, this`tail, this`order, nodes
      ensures Valid() && Contents() == Lru.Touch(E, old(Contents()), tag)
      ensures tag in old(Contents())
    {
      ghost var order0 := order;
      ghost var k := FindTag(lines[..], order, i);
      TouchHit(E, lines[..], order, k);
      Remove(i, k);
      DropMembers(nodes.Length, order0, k);
      Push(i);
    }

    /** The eviction branch of access_cache: the least recently used line takes the tag. */
    method ReplaceLru(tag: int)
      requires Valid() && |order| == E && tag !in Contents()
      modifies this`head, this`tail, this`order, lines, nodes
      ensures Valid() && Contents() == Lru.Touch(E, old(Contents()), tag)
    {
      ghost var l0, order0 := lines[..], order;
      var lru := LruIndex();
      TouchFull(E, l0, order, tag);
      lines[lru] := lines[lru].(tag := tag);
      assert lines[..] == l0[lru := l0[lru].(tag := tag)];
      Remove(lru, 0);
      DropMembers(nodes.Length, order0, 0);
      Push(lru);
    }

    /** access_cache, for the set that the address selects. */
    method Access(tag: int) returns (outcome: Outcome)
      requires Valid()
      modifies this`head, this`tail, this`order, lines, nodes
      ensures Valid() && Contents() == Lru.Touch(E, old(Contents()), tag)
      ensures outcome == Hit <==> tag in old(Contents())
      ensures outcome == Eviction <==> tag !in old(Contents()) && |old(Contents())| == E
    {
      ghost var l0 := lines[..];
      var i := 0;
      while i < E
        invariant 0 <= i <= E
        invariant forall j :: 0 <= j < i ==> !(lines[j].valid && lines[j].tag == tag)
      {
        if lines[i].valid && lines[i].tag == tag {
          MakeMostRecent(i, tag);
          return Hit;
        }
        i := i + 1;
      }
      TagAbsent(l0, order, tag);
      var emptyIndex := -1;
      i := 0;
      while i < E
        invariant 0 <= i <= E && emptyIndex == -1
        invariant forall j :: 0 <= j < i ==> lines[j].valid
      {
        if !lines[i].valid {
          emptyIndex := i;
          break;
        }
        i := i + 1;
      }
      if emptyIndex != -1 {
        TouchEmpty(E, l0, order, emptyIndex, tag);
        lines[emptyIndex] := Line(true, tag);
        assert lines[..] == l0[emptyIndex := Line(true, tag)];
        Push(emptyIndex);
        outcome := Miss;
      } else {
        AllValid(E, l0, order);
        ReplaceLru(tag);
        outcome := Eviction;
      }
    }
  }

  /** The set is well formed, has E lines, and holds the tags l, the least recently used first. */
  ghost predicate Holds(c: CacheSet, E: int, l: seq<int>)
    reads c, c.lines, c.nodes
  {
    c.Valid() && c.E == E && c.Contents() == l
  }

  /** The whole simulator: the sets, the three counters, and the accesses made so far. */
  class Cache {
    const g: Geometry
    const sets: seq<CacheSet>
    var hits: int
    var misses: int
    var evictions: int
    ghost var trace: seq<nat>

    /** No two sets share a set record, a line array or a node array. */
    ghost predicate Apart() {
      forall i, j :: 0 <= i < j < |sets| ==>
        sets[i] != sets[j] && sets[i].lines != sets[j].lines && sets[i].nodes != sets[j].nodes
    }

    ghost predicate Valid()
      reads this, sets, set c | c in sets :: c.lines, set c | c in sets :: c.nodes
    {
      && Supported(g) && |sets| == Pow2(g.s) && Apart()
      && (forall i :: 0 <= i < |sets| ==> Holds(sets[i], g.E, Held(g, trace, i)))
      && hits == Hits(g, trace) && evictions == Evictions(g, trace) && misses == |trace| - Hits(g, trace)
    }

    /** create_cache, with the counters at zero. */
    constructor (g: Geometry)
      requires Supported(g)
      ensures Valid() && trace == [] && this.g == g
    {
      var cs: seq<CacheSet> := [];
      var n := Pow2(g.s);
      while |cs| < n
        invariant |cs| <= n
        invariant forall i :: 0 <= i < |cs| ==>
                    fresh(cs[i]) && fresh(cs[i].lines) && fresh(cs[i].nodes) && Holds(cs[i], g.E, Held(g, [], i))
        invariant forall i, j :: 0 <= i < j < |cs| ==>
                    cs[i] != cs[j] && cs[i].lines != cs[j].lines && cs[i].nodes != cs[j].nodes
      {
        var c := new CacheSet(g.E);
        cs := cs + [c];
      }
      this.g, sets := g, cs;
      hits, misses, evictions, trace := 0, 0, 0, [];
    }

    /** The part of access_cache that touches the selected set; the other sets are not written. */
    method AccessSet(i: nat, tag: int, ghost ls: seq<seq<int>>) returns (outcome: Outcome)
      requires Apart() && i < |sets| == |ls|
      requires forall j :: 0 <= j < |sets| ==> Holds(sets[j], g.E, ls[j])
      modifies sets, set c | c in sets :: c.lines, set c | c in sets :: c.nodes
      ensures 1 <= g.E && |ls[i]| <= g.E
      ensures forall j :: 0 <= j < |sets| ==>
                Holds(sets[j], g.E, if j == i then Lru.Touch(g.E, ls[i], tag) else ls[j])
      ensures outcome == Hit <==> tag in ls[i]
      ensures outcome == Eviction <==> tag !in ls[i] && |ls[i]| == g.E
    {
      hide Lru.Touch;
      assert Holds(sets[i], g.E, ls[i]);
      outcome := sets[i].Access(tag);
      forall j | 0 <= j < |sets| && j != i ensures Holds(sets[j], g.E, ls[j]) {
        assert old(Holds(sets[j], g.E, ls[j]));
      }
    }

    /** access_cache */
    method Access(addr: nat)
      requires Valid()
      modifies this`hits, this`misses, this`evictions, this`trace
      modifies sets, set c | c in sets :: c.lines, set c | c in sets :: c.nodes
      ensures Valid() && trace == old(trace) + [addr]
    {
      hide SetOf, TagOf, Holds, Lru.Touch, Held, Hits, Evictions;
      var i, tag := SetOf(g, addr), TagOf(g, addr);
      ghost var t := trace;
      CountStep(g, t, addr);
      forall j: nat | j < |sets|
        ensures Held(g, t + [addr], j) == if j == i then Lru.Touch(g.E, Held(g, t, i), tag) else Held(g, t, j)
      {
        HeldStep(g, t, addr, j);
      }
      ghost var ls := seq(|sets|, j requires 0 <= j < |sets| => Held(g, t, j));
      var outcome := AccessSet(i, tag, ls);
      if outcome == Hit {
        hits := hits + 1;
      } else {
        misses := misses + 1;
        if outcome == Eviction {
          evictions := evictions + 1;
        }
      }
      trace := trace + [addr];
      assert forall j :: 0 <= j < |sets| ==> Holds(sets[j], g.E, Held(g, trace, j)) by {
        forall j | 0 <= j < |sets| ensures Holds(sets[j], g.E, Held(g, trace, j)) {
          assert Holds(sets[j], g.E, if j == i then Lru.Touch(g.E, ls[i], tag) else ls[j]);
        }
      }
      assert hits == Hits(g, trace) && evictions == Evictions(g, trace) && misses == |trace| - Hits(g, trace);
    }

    /**
      The trace loop: every line is one access, an M line two. The counters end up as the numbers
      of hits, misses and evictions that least-recently-used replacement has on the trace.
      */
    method Simulate(ops: seq<Op>)
      requires Valid() && trace == []
      modifies this`hits, this`misses, this`evictions, this`trace
      modifies sets, set c | c in sets :: c.lines, set c | c in sets :: c.nodes
      ensures Valid() && trace == Accesses(ops)
      ensures hits == Hits(g, Accesses(ops)) && evictions == Evictions(g, Accesses(ops))
      ensures hits + misses == |ops| + Modifies(ops) && hits >= Modifies(ops)
      ensures misses - evictions == LinesInUse(g, Accesses(ops), Pow2(g.s))
    {
      hide Apart, Holds, Supported, Hits, Evictions, LinesInUse;
      var k := 0;
      while k < |ops|
        invariant 0 <= k <= |ops| && Valid() && trace == Accesses(ops[..k])
      {
        assert ops[..k + 1][..k] == ops[..k];
        if ops[k].isModify {
          Access(ops[k].addr);
        }
        Access(ops[k].addr);
        k := k + 1;
      }
      assert ops[..k] == ops;
      AtLeastOne(g);
      AccessCount(ops);
      ModifiesHit(g, ops);
      Conservation(g, trace);
    }
  }

  lemma AtLeastOne(g: Geometry)
    ensures Supported(g) ==> g.E >= 1
  {
  }
}
