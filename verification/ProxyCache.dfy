/** The proxy's object cache: a byte-bounded list, most recently used first, each call atomic. */
module ProxyCache {
  import opened Sequences
  import opened Rio

  class Object {
    const size: nat
    const url: string
    const data: seq<Byte>
    var next: Object?
    var prev: Object?

    constructor (size: nat, url: string, data: seq<Byte>)
      ensures this.size == size && this.url == url && this.data == data
    {
      this.size, this.url, this.data := size, url, data;
      next, prev := null, null;
    }
  }

  /** The k-th object, or null beyond either end. */
  function At(nodes: seq<Object>, k: int): Object? {
    if 0 <= k < |nodes| then nodes[k] else null
  }

  function Bytes(nodes: seq<Object>): nat {
    if nodes == [] then 0 else nodes[0].size + Bytes(nodes[1..])
  }

  lemma {:induction false} BytesAppend(a: seq<Object>, o: Object)
    ensures Bytes(a + [o]) == Bytes(a) + o.size
  {
    if a == [] {
      assert a + [o] == [o];
    } else {
      assert (a + [o])[1..] == a[1..] + [o];
      BytesAppend(a[1..], o);
    }
  }

  lemma {:induction false} BytesWithout(a: seq<Object>, k: nat)
    requires k < |a|
    ensures Bytes(a) == a[k].size + Bytes(a[..k] + a[k + 1..])
  {
    if k == 0 {
      assert a[..0] + a[1..] == a[1..];
    } else {
      BytesWithout(a[1..], k - 1);
      assert a[..k] + a[k + 1..] == [a[0]] + (a[1..][..k - 1] + a[1..][k..]);
    }
  }

  /** The object most recently inserted for url, or null. */
  function LatestFor(log: seq<Object>, url: string): Object? {
    if log == [] then null
    else if log[|log| - 1].url == url then log[|log| - 1]
    else LatestFor(log[..|log| - 1], url)
  }

  /** The first position of url in the list, or its length. */
  function Find(nodes: seq<Object>, url: string): (k: nat)
    ensures k <= |nodes|
    ensures forall j :: 0 <= j < k ==> nodes[j].url != url
    ensures k < |nodes| ==> nodes[k].url == url
  {
    if nodes == [] then 0 else if nodes[0].url == url then 0 else 1 + Find(nodes[1..], url)
  }

  /** For every url the first object in the list is the one inserted last; older duplicates are behind it. */
  ghost predicate Fresh(nodes: seq<Object>, log: seq<Object>) {
    forall url {:trigger Find(nodes, url)} :: Find(nodes, url) < |nodes| ==>
      nodes[Find(nodes, url)] == LatestFor(log, url)
  }

  /** prev and next of the k-th object name its neighbours. */
  ghost predicate LinkedAt(nodes: seq<Object>, k: int)
    reads nodes
  {
    0 <= k < |nodes| ==> nodes[k].prev == At(nodes, k - 1) && nodes[k].next == At(nodes, k + 1)
  }

  function ToFront(nodes: seq<Object>, k: nat): seq<Object>
    requires k < |nodes|
  {
    [nodes[k]] + nodes[..k] + nodes[k + 1..]
  }

  lemma FindIs(nodes: seq<Object>, url: string, k: nat)
    requires k <= |nodes| && forall j :: 0 <= j < k ==> nodes[j].url != url
    requires k < |nodes| ==> nodes[k].url == url
    ensures Find(nodes, url) == k
  {
    assert Find(nodes, url) < |nodes| ==> nodes[Find(nodes, url)].url == url;
  }

  /** Moving the first object of a url to the front keeps every url's first object first. */
  lemma FreshToFront(nodes: seq<Object>, log: seq<Object>, url: string)
    requires Fresh(nodes, log) && Find(nodes, url) < |nodes|
    ensures Fresh(ToFront(nodes, Find(nodes, url)), log)
  {
    var k := Find(nodes, url);
    var l := ToFront(nodes, k);
    forall u | Find(l, u) < |l| ensures l[Find(l, u)] == LatestFor(log, u) {
      var f := Find(nodes, u);
      if u == url {
        FindIs(l, u, 0);
      } else if f < k {
        assert l[f + 1] == nodes[f];
        FindIs(l, u, f + 1);
      } else {
        assert f != k;
        FindIs(l, u, f);
      }
    }
  }

  lemma FreshInsert(nodes: seq<Object>, log: seq<Object>, o: Object)
    requires Fresh(nodes, log)
    ensures Fresh([o] + nodes, log + [o])
  {
    var l := [o] + nodes;
    assert (log + [o])[..|log|] == log;
    forall u | Find(l, u) < |l| ensures l[Find(l, u)] == LatestFor(log + [o], u) {
      if o.url != u {
        assert l[1..] == nodes;
      }
    }
  }

  lemma FreshPrefix(nodes: seq<Object>, log: seq<Object>, m: nat)
    requires Fresh(nodes, log) && m <= |nodes|
    ensures Fresh(nodes[..m], log)
  {
    forall u | Find(nodes[..m], u) < m ensures nodes[..m][Find(nodes[..m], u)] == LatestFor(log, u) {
      FindIs(nodes, u, Find(nodes[..m], u));
    }
  }

  lemma DistinctToFront(nodes: seq<Object>, k: nat)
    requires k < |nodes| && Distinct(nodes)
    ensures Distinct(ToFront(nodes, k))
    ensures forall j :: 1 <= j < |nodes| ==> ToFront(nodes, k)[j] == nodes[if j <= k then j - 1 else j]
  {
    var l := ToFront(nodes, k);
    assert forall j :: 1 <= j < |l| ==> l[j] == nodes[if j <= k then j - 1 else j];
  }

  lemma BytesToFront(nodes: seq<Object>, k: nat)
    requires k < |nodes|
    ensures Bytes(ToFront(nodes, k)) == Bytes(nodes)
  {
    BytesWithout(nodes, k);
    assert ToFront(nodes, k)[1..] == nodes[..k] + nodes[k + 1..];
  }

  /** m is the length of the longest prefix of the list that leaves room for the new object, or 0. */
  ghost predicate Keeps(nodes: seq<Object>, size: nat, maxSize: nat, m: nat) {
    && m <= |nodes|
    && (m == 0 || Bytes(nodes[..m]) + size <= maxSize)
    && (forall j :: m < j <= |nodes| ==> Bytes(nodes[..j]) + size > maxSize)
  }

  lemma {:induction false} BytesGrow(nodes: seq<Object>, i: nat, j: nat)
    requires i <= j <= |nodes|
    ensures Bytes(nodes[..i]) <= Bytes(nodes[..j])
  {
    if i < j {
      BytesGrow(nodes, i, j - 1);
      assert nodes[..j] == nodes[..j - 1] + [nodes[j - 1]];
      BytesAppend(nodes[..j - 1], nodes[j - 1]);
    }
  }

  class Cache {
    var size: nat
    var count: nat
    const maxSize: nat
    var head: Object?
    var tail: Object?
    ghost var nodes: seq<Object>
    ghost var inserted: seq<Object>

    /** Links in both directions, head and tail agree with the list. */
    ghost predicate Linked()
      reads this, nodes
    {
      && Distinct(nodes) && head == At(nodes, 0) && tail == At(nodes, |nodes| - 1)
      && forall k {:trigger LinkedAt(nodes, k)} :: LinkedAt(nodes, k)
    }

    ghost predicate Valid()
      reads this, nodes
    {
      Linked() && size == Bytes(nodes) && count == |nodes| && Fresh(nodes, inserted)
    }

    /** cache_init */
    constructor (maxSize: nat)
      ensures Valid() && nodes == [] && inserted == [] && this.maxSize == maxSize && size == 0
    {
      size, count, head, tail := 0, 0, null, null;
      this.maxSize := maxSize;
      nodes, inserted := [], [];
    }

    /** move_front, with the position of the object. */
    method MoveFront(obj: Object, ghost k: nat)
      requires Linked() && k < |nodes| && nodes[k] == obj
      modifies this`head, this`tail, this`nodes, nodes
      ensures Linked() && nodes == ToFront(old(nodes), k)
    {
      ghost var l := nodes;
      assert LinkedAt(l, k) && LinkedAt(l, k - 1) && LinkedAt(l, k + 1) && LinkedAt(l, 0);
      if obj == head {
        assert ToFront(l, 0) == l;
        return;
      }
      if obj.prev != null {
        obj.prev.next := obj.next;
      }
      if obj.next != null {
        obj.next.prev := obj.prev;
      }
      if obj == tail {
        tail := obj.prev;
      }
      obj.next := head;
      obj.prev := null;
      if head != null {
        head.prev := obj;
      }
      head := obj;
      // The source sets tail here if it is null; it never is, since obj was not the head.
      assert tail != null;
      nodes := ToFront(l, k);
      DistinctToFront(l, k);
      forall j ensures LinkedAt(nodes, j) {
        assert old(LinkedAt(l, j)) && old(LinkedAt(l, j - 1));
      }
    }

    /** Dropping the object at the tail. */
    method EvictTail(victim: Object)
      requires Valid() && nodes != [] && victim == tail
      modifies this, nodes
      ensures Valid() && nodes == old(nodes)[..|old(nodes)| - 1] && inserted == old(inserted)
    {
      ghost var l, m := nodes, |nodes| - 1;
      assert LinkedAt(l, m) && LinkedAt(l, m - 1) && l == l[..m] + [victim];
      BytesAppend(l[..m], victim);
      FreshPrefix(l, inserted, m);
      tail := victim.prev;
      if tail != null {
        tail.next := null;
      } else {
        head := null;
      }
      size := size - victim.size;
      count := count - 1;
      nodes := l[..m];
      forall j ensures LinkedAt(nodes, j) {
        assert old(LinkedAt(l, j));
      }
    }

    /** Linking a new object in front; count and size follow. */
    method LinkFirst(obj: Object)
      requires Valid() && obj !in nodes
      modifies this`head, this`tail, this`nodes, this`inserted, nodes, obj
      ensures Linked() && nodes == [obj] + old(nodes) && inserted == old(inserted) + [obj]
      ensures Fresh(nodes, inserted) && Bytes(nodes) == old(Bytes(nodes)) + obj.size
    {
      ghost var l := nodes;
      assert LinkedAt(l, 0);
      FreshInsert(l, inserted, obj);
      obj.next := head;
      obj.prev := null;
      if head != null {
        head.prev := obj;
      }
      head := obj;
      if tail == null {
        tail := obj;
      }
      nodes := [obj] + l;
      inserted := inserted + [obj];
      assert nodes[1..] == l;
      forall j ensures LinkedAt(nodes, j) {
        assert old(LinkedAt(l, j - 1));
      }
    }

    /** cache_access, as one atomic step: the first object with the url, moved to the front. */
    method Access(url: string) returns (r: Object?)
      requires Valid()
      modifies this`head, this`tail, this`nodes, nodes
      ensures Valid() && inserted == old(inserted)
      ensures r == null <==> forall o :: o in old(nodes) ==> o.url != url
      ensures r == null ==> nodes == old(nodes)
      ensures r != null ==>
                && r.url == url && r == LatestFor(inserted, url) && r in nodes
                && Find(old(nodes), url) < |old(nodes)| && old(nodes)[Find(old(nodes), url)] == r
                && nodes == ToFront(old(nodes), Find(old(nodes), url))
    {
      ghost var l, k := nodes, 0;
      assert LinkedAt(l, 0);
      var current := head;
      while current != null
        invariant 0 <= k <= |l| && current == At(l, k) && forall j :: 0 <= j < k ==> l[j].url != url
        invariant nodes == l && Valid()
        decreases |l| - k
      {
        assert LinkedAt(l, k);
        if current.url == url {
          FindIs(l, url, k);
          FreshToFront(l, inserted, url);
          BytesToFront(l, k);
          MoveFront(current, k);
          return current;
        }
        current := current.next;
        k := k + 1;
      }
      return null;
    }

    /** The eviction loop of cache_insert. */
    method MakeRoom(need: nat) returns (ghost m: nat)
      requires Valid()
      modifies this, nodes
      ensures Valid() && inserted == old(inserted)
      ensures m <= |old(nodes)| && nodes == old(nodes)[..m] && Keeps(old(nodes), need, maxSize, m)
    {
      hide LinkedAt, Fresh, Distinct;
      ghost var l := nodes;
      m := |nodes|;
      assert l[..m] == l;
      while size + need > maxSize && tail != null
        invariant 0 <= m <= |l| && nodes == l[..m] && Valid() && inserted == old(inserted)
        invariant m < |l| ==> Bytes(l[..m + 1]) + need > maxSize
        decreases m
      {
        EvictTail(tail);
        m := m - 1;
      }
      forall j | m < j <= |l| ensures Bytes(l[..j]) + need > maxSize {
        BytesGrow(l, m + 1, j);
      }
    }

    /** cache_insert, as one atomic step: evict from the tail until the object fits, then put it in front. */
    method Insert(obj: Object)
      requires Valid() && obj !in nodes
      modifies this, nodes, obj
      ensures Valid() && inserted == old(inserted) + [obj]
      ensures exists m ::
                0 <= m <= |old(nodes)| && nodes == [obj] + old(nodes)[..m] && Keeps(old(nodes), obj.size, maxSize, m)
      ensures obj.size <= maxSize ==> size <= maxSize
    {
      ghost var l := nodes;
      ghost var m := MakeRoom(obj.size);
      ghost var kept := nodes;
      LinkFirst(obj);
      count := count + 1;
      size := size + obj.size;
      assert nodes == [obj] + l[..m] && (m == 0 ==> kept == []);
    }
  }
}
