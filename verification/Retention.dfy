/**
  How long the object cache keeps an object: a stack-distance theorem for a byte-bounded
  least-recently-used list.
  */
module Retention {
  import opened ProxyCache

  /** One use of the cache: the url, and the size of the object found or stored, if there is one. */
  datatype Visit = Visit(url: string, kept: bool, size: nat)

  /** The url has been found or stored since visit j. */
  ghost predicate Seen(visits: seq<Visit>, j: int, url: string) {
    exists h :: 0 <= j <= h < |visits| && visits[h].kept && visits[h].url == url
  }

  /** The bytes of the different objects found or stored since visit j. */
  ghost function Working(visits: seq<Visit>, j: int): nat {
    if |visits| == 0 || |visits| <= j then 0
    else
      var init, v := visits[..|visits| - 1], visits[|visits| - 1];
      Working(init, j) + if v.kept && !Seen(init, j, v.url) then v.size else 0
  }

  /** Visit j is the last one for the url, and it left an object. */
  ghost predicate LastKept(visits: seq<Visit>, url: string, j: int) {
    && 0 <= j < |visits| && visits[j].url == url && visits[j].kept
    && forall i :: j < i < |visits| ==> visits[i].url != url
  }

  /** What one use does to the list: the object found moves to the front, or the new one evicts the least it must. */
  ghost predicate Used(nodes: seq<Object>, nodes': seq<Object>, v: Visit, max: nat) {
    var f := Find(nodes, v.url);
    if f < |nodes| then v.kept && nodes[f].size == v.size && nodes' == ToFront(nodes, f)
    else if v.kept then Pushed(nodes, nodes', v.url, v.size, max)
    else nodes' == nodes
  }

  /** A new object stands in front of the part of the list that leaves room for it. */
  ghost predicate Pushed(nodes: seq<Object>, nodes': seq<Object>, url: string, size: nat, max: nat) {
    && 1 <= |nodes'| <= |nodes| + 1 && nodes'[0].url == url && nodes'[0].size == size
    && nodes' == [nodes'[0]] + nodes[..|nodes'| - 1] && Keeps(nodes, size, max, |nodes'| - 1)
  }

  /** The urls of the list down to p are those seen since visit j. */
  ghost predicate Front(nodes: seq<Object>, visits: seq<Visit>, j: int, p: int) {
    forall w {:trigger Seen(visits, j, w)} :: Seen(visits, j, w) <==> Find(nodes, w) <= p
  }

  /**
    The object of visit j is still there exactly when the different objects used since, it included, fit
    into the cache together; and then those are the objects in front, down to it.
    */
  ghost predicate Retains(nodes: seq<Object>, visits: seq<Visit>, j: int, max: nat)
    requires 0 <= j < |visits|
  {
    var p := Find(nodes, visits[j].url);
    if Working(visits, j) <= max then
      p < |nodes| && Bytes(nodes[..p + 1]) == Working(visits, j) && Front(nodes, visits, j, p)
    else p == |nodes|
  }

  lemma SeenStep(visits: seq<Visit>, v: Visit, j: int, w: string)
    requires 0 <= j <= |visits|
    ensures Seen(visits + [v], j, w) <==> Seen(visits, j, w) || (v.kept && v.url == w)
  {
    var visits' := visits + [v];
    assert v.kept && v.url == w ==> visits'[|visits|].kept && visits'[|visits|].url == w;
    if Seen(visits, j, w) {
      var h :| j <= h < |visits| && visits[h].kept && visits[h].url == w;
      assert visits'[h] == visits[h];
    }
  }

  lemma WorkingStep(visits: seq<Visit>, v: Visit, j: int)
    requires 0 <= j <= |visits|
    ensures Working(visits + [v], j) == Working(visits, j) + if v.kept && !Seen(visits, j, v.url) then v.size else 0
  {
    assert (visits + [v])[..|visits|] == visits;
    if j == |visits| {
      WorkingNone(visits, j);
    }
  }

  lemma WorkingNone(visits: seq<Visit>, j: int)
    requires j >= |visits|
    ensures Working(visits, j) == 0
  {
  }

  /** Where a url is found after a move to the front. */
  lemma FindToFront(nodes: seq<Object>, url: string, w: string)
    requires Find(nodes, url) < |nodes|
    ensures var f, i := Find(nodes, url), Find(nodes, w);
            Find(ToFront(nodes, f), w) == if w == url then 0 else if i < f then i + 1 else i
  {
    var f, i := Find(nodes, url), Find(nodes, w);
    var l := ToFront(nodes, f);
    if w == url {
      FindIs(l, w, 0);
    } else if i < f {
      FindIs(l, w, i + 1);
    } else {
      FindIs(l, w, i);
    }
  }

  /** Where a url is found after an insertion. */
  lemma FindPushed(nodes: seq<Object>, o: Object, m: nat, w: string)
    requires m <= |nodes|
    ensures var i, l := Find(nodes, w), [o] + nodes[..m];
            Find(l, w) == if w == o.url then 0 else if i < m then i + 1 else |l|
  {
    var i, l := Find(nodes, w), [o] + nodes[..m];
    FindIs(l, w, if w == o.url then 0 else if i < m then i + 1 else |l|);
  }

  /** A prefix of the list and an object behind it. */
  lemma BytesBehind(nodes: seq<Object>, p: nat, f: nat)
    requires p <= f < |nodes|
    ensures Bytes(nodes[..p]) + nodes[f].size <= Bytes(nodes)
  {
    var rest := nodes[..f] + nodes[f + 1..];
    BytesWithout(nodes, f);
    BytesGrow(rest, p, |rest|);
    assert rest[..p] == nodes[..p] && rest[..|rest|] == rest;
  }

  lemma BytesCons(o: Object, l: seq<Object>)
    ensures Bytes([o] + l) == o.size + Bytes(l)
  {
    assert ([o] + l)[1..] == l;
  }

  /** A hit on an object in front of p reorders what is in front; one on an object behind p adds it. */
  lemma FrontBytes(nodes: seq<Object>, f: nat, p: nat)
    requires f < |nodes| && p < |nodes| && f != p
    ensures f < p ==> Bytes(ToFront(nodes, f)[..p + 1]) == Bytes(nodes[..p + 1])
    ensures p < f ==> Bytes(ToFront(nodes, f)[..p + 2]) == nodes[f].size + Bytes(nodes[..p + 1])
  {
    if f < p {
      assert ToFront(nodes, f)[..p + 1] == ToFront(nodes[..p + 1], f);
      BytesToFront(nodes[..p + 1], f);
    } else {
      assert ToFront(nodes, f)[..p + 2] == [nodes[f]] + nodes[..p + 1];
      BytesCons(nodes[f], nodes[..p + 1]);
    }
  }

  lemma HitAt(nodes: seq<Object>, visits: seq<Visit>, v: Visit, j: int, p: nat, w: string)
    requires 0 <= j < |visits| && v.kept && (Seen(visits, j, w) <==> Find(nodes, w) <= p)
    requires Find(nodes, v.url) < |nodes| && Find(nodes, v.url) != p
    ensures var f := Find(nodes, v.url);
            Seen(visits + [v], j, w) <==> Find(ToFront(nodes, f), w) <= if p < f then p + 1 else p
  {
    hide Seen, Find, ToFront;
    SeenStep(visits, v, j, w);
    FindToFront(nodes, v.url, w);
    if w != v.url {
      FindDiffer(nodes, v.url, w);
    }
  }

  lemma HitFront(nodes: seq<Object>, visits: seq<Visit>, v: Visit, j: int, p: nat)
    requires 0 <= j < |visits| && Front(nodes, visits, j, p) && v.kept
    requires Find(nodes, v.url) < |nodes| && Find(nodes, v.url) != p
    ensures var f := Find(nodes, v.url);
            Front(ToFront(nodes, f), visits + [v], j, if p < f then p + 1 else p)
    ensures Seen(visits, j, v.url) <==> Find(nodes, v.url) <= p
  {
    hide Seen, Find, ToFront;
    var f := Find(nodes, v.url);
    forall w ensures Seen(visits + [v], j, w) <==> Find(ToFront(nodes, f), w) <= if p < f then p + 1 else p {
      assert Seen(visits, j, w) <==> Find(nodes, w) <= p;
      HitAt(nodes, visits, v, j, p, w);
    }
  }

  /** The object found is in front of p: what is in front is reordered. */
  lemma HitInFront(nodes: seq<Object>, visits: seq<Visit>, v: Visit, j: int, max: nat)
    requires 0 <= j < |visits| && Retains(nodes, visits, j, max) && Working(visits, j) <= max && v.kept
    requires Find(nodes, v.url) < Find(nodes, visits[j].url)
    ensures Retains(ToFront(nodes, Find(nodes, v.url)), visits + [v], j, max)
  {
    hide Working, Seen, Find, ToFront, Bytes, Front;
    var f, p := Find(nodes, v.url), Find(nodes, visits[j].url);
    FindToFront(nodes, v.url, visits[j].url);
    FrontSize(nodes, f);
    FrontBytes(nodes, f, p);
    HitFront(nodes, visits, v, j, p);
    WorkingStep(visits, v, j);
    assert Find(ToFront(nodes, f), visits[j].url) == p && Working(visits + [v], j) == Working(visits, j);
  }

  /** It is behind: it joins what is in front, and all that fits because it was there before. */
  lemma HitBehind(nodes: seq<Object>, visits: seq<Visit>, v: Visit, j: int, max: nat)
    requires 0 <= j < |visits| && Retains(nodes, visits, j, max) && Working(visits, j) <= max && v.kept
    requires Find(nodes, visits[j].url) < Find(nodes, v.url) < |nodes|
    requires nodes[Find(nodes, v.url)].size == v.size && Bytes(nodes) <= max
    ensures Retains(ToFront(nodes, Find(nodes, v.url)), visits + [v], j, max)
  {
    hide Working, Seen, Find, ToFront, Bytes, Front;
    var f, p := Find(nodes, v.url), Find(nodes, visits[j].url);
    FindToFront(nodes, v.url, visits[j].url);
    FrontSize(nodes, f);
    FrontBytes(nodes, f, p);
    HitFront(nodes, visits, v, j, p);
    BytesBehind(nodes, p + 1, f);
    WorkingStep(visits, v, j);
    assert Find(ToFront(nodes, f), visits[j].url) == p + 1;
    assert Working(visits + [v], j) == Working(visits, j) + v.size;
  }

  /** What is gone stays gone when another url is found. */
  lemma HitGone(nodes: seq<Object>, visits: seq<Visit>, v: Visit, j: int, max: nat)
    requires 0 <= j < |visits| && Retains(nodes, visits, j, max) && Working(visits, j) > max
    requires v.url != visits[j].url && Find(nodes, v.url) < |nodes|
    ensures Retains(ToFront(nodes, Find(nodes, v.url)), visits + [v], j, max)
  {
    hide Working, Seen, Find, ToFront, Bytes, Front;
    FindToFront(nodes, v.url, visits[j].url);
    FrontSize(nodes, Find(nodes, v.url));
    WorkingStep(visits, v, j);
  }

  lemma HitRetains(nodes: seq<Object>, visits: seq<Visit>, v: Visit, j: int, max: nat)
    requires 0 <= j < |visits| && Retains(nodes, visits, j, max) && v.url != visits[j].url && v.kept
    requires Find(nodes, v.url) < |nodes| && nodes[Find(nodes, v.url)].size == v.size && Bytes(nodes) <= max
    ensures Retains(ToFront(nodes, Find(nodes, v.url)), visits + [v], j, max)
  {
    hide Working, Find, Retains, ToFront, Bytes;
    FindDiffer(nodes, v.url, visits[j].url);
    if Working(visits, j) > max {
      HitGone(nodes, visits, v, j, max);
    } else if Find(nodes, v.url) < Find(nodes, visits[j].url) {
      HitInFront(nodes, visits, v, j, max);
    } else {
      HitBehind(nodes, visits, v, j, max);
    }
  }

  lemma FindDiffer(nodes: seq<Object>, url: string, w: string)
    requires url != w && Find(nodes, url) < |nodes|
    ensures Find(nodes, url) != Find(nodes, w)
  {
  }

  lemma FrontSize(nodes: seq<Object>, f: nat)
    requires f < |nodes|
    ensures |ToFront(nodes, f)| == |nodes|
  {
  }

  lemma PushFront(nodes: seq<Object>, o: Object, m: nat, visits: seq<Visit>, v: Visit, j: int, p: nat)
    requires 0 <= j < |visits| && Front(nodes, visits, j, p) && v.kept && p < m <= |nodes| && o.url == v.url
    requires Find(nodes, v.url) == |nodes|
    ensures Front([o] + nodes[..m], visits + [v], j, p + 1) && !Seen(visits, j, v.url)
  {
    hide Seen, Find;
    var l := [o] + nodes[..m];
    forall w ensures Seen(visits + [v], j, w) <==> Find(l, w) <= p + 1 {
      SeenStep(visits, v, j, w);
      FindPushed(nodes, o, m, w);
      assert Seen(visits, j, w) <==> Find(nodes, w) <= p;
    }
  }

  lemma PushRetains(nodes: seq<Object>, nodes': seq<Object>, visits: seq<Visit>, v: Visit, j: int, max: nat)
    requires 0 <= j < |visits| && Retains(nodes, visits, j, max) && v.url != visits[j].url && v.kept
    requires Find(nodes, v.url) == |nodes| && Pushed(nodes, nodes', v.url, v.size, max)
    ensures Retains(nodes', visits + [v], j, max)
  {
    hide Working, Seen, Find, Bytes, Front, Keeps;
    var p, m, o := Find(nodes, visits[j].url), |nodes'| - 1, nodes'[0];
    WorkingStep(visits, v, j);
    FindPushed(nodes, o, m, visits[j].url);
    if Working(visits, j) <= max {
      NotInFront(nodes, visits, v.url, j, p);
      Lost(nodes, v.size, max, m, p);
      if p < m {
        PushFront(nodes, o, m, visits, v, j, p);
        assert nodes'[..p + 2] == [o] + nodes[..p + 1];
        BytesCons(o, nodes[..p + 1]);
      }
    }
  }

  lemma NotInFront(nodes: seq<Object>, visits: seq<Visit>, url: string, j: int, p: nat)
    requires Front(nodes, visits, j, p) && p < Find(nodes, url)
    ensures !Seen(visits, j, url)
  {
  }

  /** The member at p survives the evictions exactly when everything down to it leaves room. */
  lemma Lost(nodes: seq<Object>, size: nat, max: nat, m: nat, p: nat)
    requires p < |nodes| && Keeps(nodes, size, max, m)
    ensures p < m <==> Bytes(nodes[..p + 1]) + size <= max
  {
    if p < m {
      BytesGrow(nodes, p + 1, m);
    }
  }

  /** A use of another url. */
  lemma UsedRetains(nodes: seq<Object>, nodes': seq<Object>, visits: seq<Visit>, v: Visit, j: int, max: nat)
    requires 0 <= j < |visits| && Retains(nodes, visits, j, max) && v.url != visits[j].url
    requires Used(nodes, nodes', v, max) && Bytes(nodes) <= max
    ensures Retains(nodes', visits + [v], j, max)
  {
    hide Working, Seen, Bytes;
    if Find(nodes, v.url) < |nodes| {
      HitRetains(nodes, visits, v, j, max);
    } else if v.kept {
      PushRetains(nodes, nodes', visits, v, j, max);
    } else {
      WorkingStep(visits, v, j);
      forall w ensures Seen(visits + [v], j, w) <==> Seen(visits, j, w) {
        SeenStep(visits, v, j, w);
      }
      assert Working(visits, j) <= max ==> Front(nodes', visits + [v], j, Find(nodes, visits[j].url));
    }
  }

  /** A use of this url starts afresh. */
  lemma UsedStarts(nodes: seq<Object>, nodes': seq<Object>, visits: seq<Visit>, v: Visit, max: nat)
    requires v.kept && v.size <= max && Used(nodes, nodes', v, max)
    ensures Retains(nodes', visits + [v], |visits|, max)
  {
    hide Keeps;
    var j, visits' := |visits|, visits + [v];
    WorkingStep(visits, v, j);
    WorkingNone(visits, j);
    assert nodes' != [] && nodes'[0].url == v.url && nodes'[0].size == v.size;
    FindIs(nodes', v.url, 0);
    assert nodes'[..1] == [nodes'[0]] + [];
    BytesCons(nodes'[0], []);
    forall w ensures Seen(visits', j, w) <==> Find(nodes', w) <= 0 {
      SeenStep(visits, v, j, w);
      FirstIs(nodes', w);
    }
  }

  lemma FirstIs(nodes: seq<Object>, w: string)
    requires nodes != []
    ensures Find(nodes, w) <= 0 <==> nodes[0].url == w
  {
  }

  /** Every object last used when it was left in the cache is retained as Retains says. */
  ghost predicate AllRetained(nodes: seq<Object>, visits: seq<Visit>, max: nat) {
    forall j {:trigger visits[j]} ::
      0 <= j < |visits| && LastKept(visits, visits[j].url, j) ==> Retains(nodes, visits, j, max)
  }

  lemma RetainStep(nodes: seq<Object>, nodes': seq<Object>, visits: seq<Visit>, v: Visit, max: nat)
    requires AllRetained(nodes, visits, max) && Used(nodes, nodes', v, max) && Bytes(nodes) <= max
    requires v.kept ==> v.size <= max
    ensures AllRetained(nodes', visits + [v], max)
  {
    hide Used, Retains;
    var visits' := visits + [v];
    forall j | 0 <= j < |visits'| && LastKept(visits', visits'[j].url, j) ensures Retains(nodes', visits', j, max) {
      if j == |visits| {
        assert visits'[j] == v;
        UsedStarts(nodes, nodes', visits, v, max);
      } else {
        assert visits'[j] == visits[j] && visits'[|visits|] == v;
        LastEarlier(visits, v, j);
        UsedRetains(nodes, nodes', visits, v, j, max);
      }
    }
  }

  lemma LastEarlier(visits: seq<Visit>, v: Visit, j: int)
    requires 0 <= j < |visits| && LastKept(visits + [v], visits[j].url, j)
    ensures LastKept(visits, visits[j].url, j) && v.url != visits[j].url
  {
    var visits' := visits + [v];
    assert visits'[|visits|] == v;
    assert forall i :: 0 <= i < |visits| ==> visits'[i] == visits[i];
  }

  /** Visits of at most size bytes each. */
  lemma {:induction false} WorkingBound(visits: seq<Visit>, j: nat, size: nat)
    requires j <= |visits| && forall i :: j <= i < |visits| && visits[i].kept ==> visits[i].size <= size
    ensures Working(visits, j) <= (|visits| - j) * size
  {
    if j < |visits| {
      WorkingBound(visits[..|visits| - 1], j, size);
      assert (|visits| - j) * size == (|visits| - 1 - j) * size + size;
    }
  }
}
