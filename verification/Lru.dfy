/** Least-recently-used replacement over traces of tags: the specification of one cache set. */
module Lru {
  import opened Sequences

  /** l without x; the other members keep their order. */
  function Without(l: seq<int>, x: int): (r: seq<int>)
    ensures x !in r
    ensures forall y :: y != x ==> (y in r <==> y in l)
  {
    if l == [] then [] else if l[0] == x then Without(l[1..], x) else [l[0]] + Without(l[1..], x)
  }

  /** One access to a set of E lines; l lists its tags, the least recently used first. */
  function Touch(E: nat, l: seq<int>, tag: int): seq<int>
    requires E >= 1 && |l| <= E
  {
    if tag in l then Without(l, tag) + [tag]
    else if |l| < E then l + [tag]
    else l[1..] + [tag]
  }

  /** The tags of the set after a trace. */
  function Run(E: nat, trace: seq<int>): (l: seq<int>)
    requires E >= 1
    ensures |l| <= E && Distinct(l)
  {
    if trace == [] then []
    else
      var l := Run(E, trace[..|trace| - 1]);
      TouchKeeps(E, l, trace[|trace| - 1]);
      Touch(E, l, trace[|trace| - 1])
  }

  lemma {:induction false} WithoutOne(l: seq<int>, k: int)
    requires Distinct(l) && 0 <= k < |l|
    ensures Without(l, l[k]) == l[..k] + l[k + 1..]
  {
    if k == 0 {
      WithoutNone(l[1..], l[0]);
    } else {
      WithoutOne(l[1..], k - 1);
      assert l[..k] == [l[0]] + l[1..][..k - 1];
    }
  }

  lemma {:induction false} WithoutNone(l: seq<int>, x: int)
    requires x !in l
    ensures Without(l, x) == l
  {
    if l != [] {
      WithoutNone(l[1..], x);
    }
  }

  lemma TouchKeeps(E: nat, l: seq<int>, tag: int)
    requires E >= 1 && |l| <= E && Distinct(l)
    ensures |Touch(E, l, tag)| <= E && Distinct(Touch(E, l, tag))
    ensures |Touch(E, l, tag)| == |l| + (if tag !in l && |l| < E then 1 else 0)
    ensures Touch(E, l, tag)[|Touch(E, l, tag)| - 1] == tag
  {
    if tag in l {
      WithoutKeeps(l, tag);
    }
  }

  lemma WithoutKeeps(l: seq<int>, tag: int)
    requires Distinct(l) && tag in l
    ensures Distinct(Without(l, tag)) && |Without(l, tag)| == |l| - 1
  {
    var k :| 0 <= k < |l| && l[k] == tag;
    WithoutOne(l, k);
  }

  /** All tags accessed, the least recently accessed first: a set that never evicts. */
  function Recency(trace: seq<int>): (l: seq<int>)
  {
    if trace == [] then [] else Without(Recency(trace[..|trace| - 1]), trace[|trace| - 1]) + [trace[|trace| - 1]]
  }

  lemma {:induction false} RecencyMembers(trace: seq<int>)
    ensures Distinct(Recency(trace)) && forall x :: x in Recency(trace) <==> x in trace
  {
    if trace != [] {
      var init, x := trace[..|trace| - 1], trace[|trace| - 1];
      RecencyMembers(init);
      assert trace == init + [x];
      DistinctWithout(Recency(init), x);
    }
  }

  lemma DistinctWithout(l: seq<int>, x: int)
    requires Distinct(l)
    ensures Distinct(Without(l, x) + [x])
  {
    if x in l {
      var k :| 0 <= k < |l| && l[k] == x;
      WithoutOne(l, k);
    } else {
      WithoutNone(l, x);
    }
  }

  /** The last n members of l, or all of them. */
  function Last(n: nat, l: seq<int>): seq<int> {
    if |l| <= n then l else l[|l| - n..]
  }

  lemma {:induction false} WithoutSize(l: seq<int>, x: int)
    requires Distinct(l)
    ensures |Without(l, x)| == |l| - (if x in l then 1 else 0)
  {
    if x in l {
      var k :| 0 <= k < |l| && l[k] == x;
      WithoutOne(l, k);
    } else {
      WithoutNone(l, x);
    }
  }

  /** Keeping E of the tags commutes with an access. */
  lemma {:induction false} TouchLast(E: nat, r: seq<int>, tag: int)
    requires E >= 1 && Distinct(r)
    ensures Last(E, Without(r, tag) + [tag]) == Touch(E, Last(E, r), tag)
  {
    WithoutSize(r, tag);
    if |r| <= E {
      if tag !in r {
        WithoutNone(r, tag);
        if |r| == E {
          LastFull(E, r, tag);
        }
      }
    } else {
      var r' := r[1..];
      WithoutSize(r', tag);
      assert r == [r[0]] + r';
      LastCons(E, r[0], r');
      if r[0] == tag {
        WithoutNone(r', tag);
        LastFull(E, r', tag);
      } else {
        TouchLast(E, r', tag);
        assert Without(r, tag) + [tag] == [r[0]] + (Without(r', tag) + [tag]);
        LastCons(E, r[0], Without(r', tag) + [tag]);
      }
    }
  }

  lemma LastFull(n: nat, l: seq<int>, x: int)
    requires 1 <= n <= |l|
    ensures Last(n, l + [x]) == Last(n, l)[1..] + [x]
  {
  }

  lemma LastCons(n: nat, x: int, l: seq<int>)
    requires |l| >= n
    ensures Last(n, [x] + l) == Last(n, l)
  {
  }

  /** A set of E lines holds the E most recently accessed tags, in order of access. */
  lemma {:induction false} RunIsLastOfRecency(E: nat, trace: seq<int>)
    requires E >= 1
    ensures Run(E, trace) == Last(E, Recency(trace))
  {
    if trace != [] {
      var init, x := trace[..|trace| - 1], trace[|trace| - 1];
      RunIsLastOfRecency(E, init);
      RecencyMembers(init);
      TouchLast(E, Recency(init), x);
    }
  }

  /** The tags other than x accessed after the last access to x. */
  function Since(trace: seq<int>, x: int): set<int> {
    if trace == [] then {}
    else if trace[|trace| - 1] == x then {}
    else Since(trace[..|trace| - 1], x) + {trace[|trace| - 1]}
  }

  /** What follows x in l. */
  function After(l: seq<int>, x: int): seq<int> {
    if l == [] then [] else if l[0] == x then l[1..] else After(l[1..], x)
  }

  lemma {:induction false} AfterAppend(l: seq<int>, y: int, x: int)
    requires x in l
    ensures After(l + [y], x) == After(l, x) + [y]
  {
    assert (l + [y])[1..] == l[1..] + [y];
    if l[0] != x {
      AfterAppend(l[1..], y, x);
    }
  }

  lemma {:induction false} AfterWithout(l: seq<int>, y: int, x: int)
    requires x in l && x != y
    ensures After(Without(l, y), x) == Without(After(l, x), y)
  {
    if l[0] == y {
      AfterWithout(l[1..], y, x);
    } else if l[0] != x {
      AfterWithout(l[1..], y, x);
      assert ([l[0]] + Without(l[1..], y))[1..] == Without(l[1..], y);
    } else {
      assert ([l[0]] + Without(l[1..], y))[1..] == Without(l[1..], y);
    }
  }

  /** In the recency order, what follows x is what has been accessed since. */
  lemma {:induction false} AfterInRecency(trace: seq<int>, x: int)
    requires x in trace
    ensures ToSet(After(Recency(trace), x)) == Since(trace, x)
  {
    var init, y := trace[..|trace| - 1], trace[|trace| - 1];
    assert trace == init + [y];
    var r := Recency(init);
    if y == x {
      AfterNew(Without(r, x), x);
    } else {
      RecencyMembers(init);
      AfterInRecency(init, x);
      AfterAppend(Without(r, y), y, x);
      AfterWithout(r, y, x);
    }
  }

  lemma {:induction false} AfterNew(l: seq<int>, x: int)
    requires x !in l
    ensures After(l + [x], x) == []
  {
    if l != [] {
      assert (l + [x])[1..] == l[1..] + [x];
      AfterNew(l[1..], x);
    }
  }

  /** x is among the last n exactly when fewer than n follow it. */
  lemma {:induction false} InLast(n: nat, l: seq<int>, x: int)
    requires Distinct(l)
    ensures x in Last(n, l) <==> x in l && |After(l, x)| < n
    ensures |After(l, x)| <= |l| && Distinct(After(l, x)) && (x in l ==> |After(l, x)| < |l|)
  {
    if l != [] {
      InLast(n, l[1..], x);
      if |l| > n {
        assert l == [l[0]] + l[1..];
        LastCons(n, l[0], l[1..]);
      }
    }
  }

  function ToSet(l: seq<int>): set<int> {
    set x | x in l
  }

  lemma {:induction false} DistinctSize(l: seq<int>)
    requires Distinct(l)
    ensures |ToSet(l)| == |l|
  {
    if l != [] {
      DistinctSize(l[1..]);
      assert ToSet(l) == {l[0]} + ToSet(l[1..]);
    }
  }

  /** Stack distance: x is held exactly when it was accessed and fewer than E other tags were accessed since. */
  lemma HitIffRecent(E: nat, trace: seq<int>, x: int)
    requires E >= 1
    ensures x in Run(E, trace) <==> x in trace && |Since(trace, x)| < E
  {
    RunIsLastOfRecency(E, trace);
    RecencyMembers(trace);
    InLast(E, Recency(trace), x);
    if x in trace {
      AfterInRecency(trace, x);
      DistinctSize(After(Recency(trace), x));
    }
  }

  /** Inclusion: what E lines hold, more lines hold as well. */
  lemma Inclusion(E: nat, F: nat, trace: seq<int>, x: int)
    requires 1 <= E <= F && x in Run(E, trace)
    ensures x in Run(F, trace)
  {
    HitIffRecent(E, trace, x);
    HitIffRecent(F, trace, x);
  }

  /** The number of accesses of a trace that hit, and that evict. */
  function Hits(E: nat, trace: seq<int>): (n: nat)
    requires E >= 1
    ensures n <= |trace|
  {
    if trace == [] then 0
    else
      var init, x := trace[..|trace| - 1], trace[|trace| - 1];
      Hits(E, init) + if x in Run(E, init) then 1 else 0
  }

  function Evictions(E: nat, trace: seq<int>): nat
    requires E >= 1
  {
    if trace == [] then 0
    else
      var init, x := trace[..|trace| - 1], trace[|trace| - 1];
      Evictions(E, init) + if x !in Run(E, init) && |Run(E, init)| == E then 1 else 0
  }

  /** Misses less evictions are the lines in use. */
  lemma {:induction false} LinesInUse(E: nat, trace: seq<int>)
    requires E >= 1
    ensures |trace| - Hits(E, trace) - Evictions(E, trace) == |Run(E, trace)|
  {
    if trace != [] {
      var init, x := trace[..|trace| - 1], trace[|trace| - 1];
      LinesInUse(E, init);
      TouchKeeps(E, Run(E, init), x);
    }
  }

  /** More lines never mean fewer hits. */
  lemma {:induction false} HitsGrow(E: nat, F: nat, trace: seq<int>)
    requires 1 <= E <= F
    ensures Hits(E, trace) <= Hits(F, trace)
  {
    if trace != [] {
      var init, x := trace[..|trace| - 1], trace[|trace| - 1];
      HitsGrow(E, F, init);
      if x in Run(E, init) {
        Inclusion(E, F, init, x);
      }
    }
  }
}
