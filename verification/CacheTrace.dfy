/** Addresses, sets and tags: least-recently-used replacement over traces of addresses. */
module CacheTrace {
  import opened Sequences
  import opened Powers
  import Lru

  /** The shape of a cache: 2^s sets of E lines of 2^b bytes. */
  datatype Geometry = Geometry(s: nat, E: nat, b: nat)

  predicate Supported(g: Geometry) {
    1 <= g.s <= 30 && 1 <= g.E && 1 <= g.b && g.s + g.b < 64
  }

  /** A right shift by k is the quotient by 2^k. */
  function Quotient(a: nat, n: nat): nat
    requires n > 0
  {
    a / n
  }

  /** GET_SET: bits b .. b+s-1 of the address. */
  function SetOf(g: Geometry, addr: nat): (i: nat)
    ensures i < Pow2(g.s)
  {
    Quotient(addr, Pow2(g.b)) % Pow2(g.s)
  }

  /** GET_TAG: the bits above. */
  function TagOf(g: Geometry, addr: nat): nat {
    Quotient(addr, Pow2(g.s + g.b))
  }

  /** Tag, set and offset are the digits of the address. */
  lemma AddressParts(g: Geometry, addr: nat)
    ensures var offset := addr - TagOf(g, addr) * Pow2(g.s + g.b) - SetOf(g, addr) * Pow2(g.b);
            0 <= offset < Pow2(g.b) && SetOf(g, addr) < Pow2(g.s)
  {
    hide Pow2, Quotient;
    Pow2Sum(g.b, g.s);
    AddressDigits(addr, Pow2(g.b), Pow2(g.s));
    QuotientIs(addr, Pow2(g.b));
    QuotientIs(addr, Pow2(g.s + g.b));
  }

  lemma QuotientIs(a: nat, n: nat)
    requires n > 0
    ensures Quotient(a, n) == a / n
  {
  }

  lemma AddressDigits(a: nat, x: nat, y: nat)
    requires x > 0 && y > 0
    ensures x * y > 0 && 0 <= a - a / (x * y) * (x * y) - (a / x % y) * x < x
  {
    DivDiv(a, x, y);
    DigitSum(a, x, y, a / x, a / x / y);
  }

  lemma DigitSum(a: nat, x: nat, y: nat, q: nat, q': nat)
    requires x > 0 && y > 0 && q == a / x && q' == q / y
    ensures 0 <= a - q' * (x * y) - (q % y) * x < x
  {
    assert q' * (x * y) == x * (y * q');
    assert x * q == x * (y * q') + x * (q % y);
  }

  function BlockOf(g: Geometry, addr: nat): nat {
    Quotient(addr, Pow2(g.b))
  }

  lemma MulParts(x: nat, y: nat, q: nat, r: nat)
    ensures x * (y * q + r) == (x * y) * q + x * r
  {
  }

  lemma MulBelow(x: nat, y: nat, r: nat, r': nat)
    requires r < x && r' < y
    ensures 0 < x * y && x * r' + r < x * y
  {
    assert x * y == x * (y - 1 - r') + x * r' + x;
  }

  lemma DivUnique(a: nat, n: nat, q: nat, r: nat)
    requires n > 0 && a == n * q + r && r < n
    ensures a / n == q && a % n == r
  {
    var d := a / n - q;
    assert a == n * (a / n) + a % n;
    assert n * (a / n) - n * q == n * d;
    assert d >= 1 ==> n * d >= n;
    assert d <= -1 ==> n * d + n <= 0;
  }

  lemma DivDiv(a: nat, x: nat, y: nat)
    requires x > 0 && y > 0
    ensures x * y > 0 && a / (x * y) == a / x / y
  {
    Nested(a, x, y, a / x, a % x, a / x / y, a / x % y);
  }

  lemma Nested(a: nat, x: nat, y: nat, q: nat, r: nat, q': nat, r': nat)
    requires a == x * q + r && r < x && q == y * q' + r' && r' < y
    ensures x * y > 0 && a / (x * y) == q'
  {
    MulParts(x, y, q', r');
    MulBelow(x, y, r, r');
    DivUnique(a, x * y, q', x * r' + r);
  }

  lemma DivModSame(u: nat, v: nat, q: nat)
    requires q > 0 && u / q == v / q && u % q == v % q
    ensures u == v
  {
  }

  /** Set and tag together are the block. */
  lemma SetAndTagAreBlock(g: Geometry, x: nat, y: nat)
    ensures SetOf(g, x) == SetOf(g, y) && TagOf(g, x) == TagOf(g, y) <==> BlockOf(g, x) == BlockOf(g, y)
  {
    Pow2Sum(g.b, g.s);
    DivDiv(x, Pow2(g.b), Pow2(g.s));
    DivDiv(y, Pow2(g.b), Pow2(g.s));
    if SetOf(g, x) == SetOf(g, y) && TagOf(g, x) == TagOf(g, y) {
      DivModSame(BlockOf(g, x), BlockOf(g, y), Pow2(g.s));
    }
  }

  /** The tags accessed in set i, in order. */
  function Project(g: Geometry, trace: seq<nat>, i: nat): seq<int> {
    if trace == [] then []
    else
      var x := trace[|trace| - 1];
      Project(g, trace[..|trace| - 1], i) + if SetOf(g, x) == i then [TagOf(g, x)] else []
  }

  /** What set i holds after a trace, the least recently used tag first. */
  function Held(g: Geometry, trace: seq<nat>, i: nat): (l: seq<int>)
    requires g.E >= 1
    ensures |l| <= g.E && Distinct(l)
  {
    Lru.Run(g.E, Project(g, trace, i))
  }

  predicate IsHit(g: Geometry, trace: seq<nat>, addr: nat)
    requires g.E >= 1
  {
    TagOf(g, addr) in Held(g, trace, SetOf(g, addr))
  }

  predicate IsEviction(g: Geometry, trace: seq<nat>, addr: nat)
    requires g.E >= 1
  {
    !IsHit(g, trace, addr) && |Held(g, trace, SetOf(g, addr))| == g.E
  }

  function Hits(g: Geometry, trace: seq<nat>): nat
    requires g.E >= 1
  {
    if trace == [] then 0
    else Hits(g, trace[..|trace| - 1]) + Bit(IsHit(g, trace[..|trace| - 1], trace[|trace| - 1]))
  }

  function Evictions(g: Geometry, trace: seq<nat>): nat
    requires g.E >= 1
  {
    if trace == [] then 0
    else Evictions(g, trace[..|trace| - 1]) + Bit(IsEviction(g, trace[..|trace| - 1], trace[|trace| - 1]))
  }

  /** One more access changes the set it maps to, and no other. */
  lemma HeldStep(g: Geometry, trace: seq<nat>, addr: nat, i: nat)
    requires g.E >= 1
    ensures Held(g, trace + [addr], i) ==
            if i == SetOf(g, addr) then Lru.Touch(g.E, Held(g, trace, i), TagOf(g, addr)) else Held(g, trace, i)
  {
    assert (trace + [addr])[..|trace|] == trace;
    var p := Project(g, trace, i);
    if i == SetOf(g, addr) {
      assert (p + [TagOf(g, addr)])[..|p|] == p;
    } else {
      assert p + [] == p;
    }
  }

  lemma CountStep(g: Geometry, trace: seq<nat>, addr: nat)
    requires g.E >= 1
    ensures Hits(g, trace + [addr]) == Hits(g, trace) + Bit(IsHit(g, trace, addr))
    ensures Evictions(g, trace + [addr]) == Evictions(g, trace) + Bit(IsEviction(g, trace, addr))
  {
    assert (trace + [addr])[..|trace|] == trace;
  }

  /** The blocks accessed, and the other blocks of its set accessed since the last access to a block. */
  predicate Accessed(g: Geometry, trace: seq<nat>, addr: nat) {
    exists k :: 0 <= k < |trace| && BlockOf(g, trace[k]) == BlockOf(g, addr)
  }

  /** The other tags of the set of addr accessed after the last access to its block. */
  function SinceAccess(g: Geometry, trace: seq<nat>, addr: nat): set<int> {
    if trace == [] then {}
    else
      var x := trace[|trace| - 1];
      if BlockOf(g, x) == BlockOf(g, addr) then {}
      else SinceAccess(g, trace[..|trace| - 1], addr) + (if SetOf(g, x) == SetOf(g, addr) then {TagOf(g, x)} else {})
  }

  lemma ProjectStep(g: Geometry, trace: seq<nat>, i: nat)
    requires trace != []
    ensures var init, x := trace[..|trace| - 1], trace[|trace| - 1];
            Project(g, trace, i) ==
            if SetOf(g, x) == i then Project(g, init, i) + [TagOf(g, x)] else Project(g, init, i)
  {
  }

  lemma AccessedStep(g: Geometry, trace: seq<nat>, addr: nat)
    requires trace != []
    ensures var init, x := trace[..|trace| - 1], trace[|trace| - 1];
            Accessed(g, trace, addr) <==> Accessed(g, init, addr) || BlockOf(g, x) == BlockOf(g, addr)
  {
    hide BlockOf;
    var init, x := trace[..|trace| - 1], trace[|trace| - 1];
    if Accessed(g, init, addr) {
      var k :| 0 <= k < |init| && BlockOf(g, init[k]) == BlockOf(g, addr);
      assert trace[k] == init[k];
    }
    if Accessed(g, trace, addr) && BlockOf(g, x) != BlockOf(g, addr) {
      var k :| 0 <= k < |trace| && BlockOf(g, trace[k]) == BlockOf(g, addr);
      assert init[k] == trace[k];
    }
  }

  lemma {:induction false} ProjectSince(g: Geometry, trace: seq<nat>, addr: nat)
    ensures TagOf(g, addr) in Project(g, trace, SetOf(g, addr)) <==> Accessed(g, trace, addr)
    ensures Lru.Since(Project(g, trace, SetOf(g, addr)), TagOf(g, addr)) == SinceAccess(g, trace, addr)
  {
    hide SetOf, TagOf, BlockOf, Accessed;
    NoAccess(g, addr);
    if trace != [] {
      var init, x, i := trace[..|trace| - 1], trace[|trace| - 1], SetOf(g, addr);
      ProjectSince(g, init, addr);
      SetAndTagAreBlock(g, x, addr);
      ProjectStep(g, trace, i);
      AccessedStep(g, trace, addr);
      var p := Project(g, init, i);
      assert (p + [TagOf(g, x)])[..|p|] == p;
    }
  }

  lemma NoAccess(g: Geometry, addr: nat)
    ensures !Accessed(g, [], addr)
  {
  }

  /**
    An access hits exactly when its block was accessed before and fewer than E other tags of its
    set were accessed since.
    */
  lemma HitIffRecent(g: Geometry, trace: seq<nat>, addr: nat)
    requires g.E >= 1
    ensures IsHit(g, trace, addr) <==> Accessed(g, trace, addr) && |SinceAccess(g, trace, addr)| < g.E
  {
    ProjectSince(g, trace, addr);
    Lru.HitIffRecent(g.E, Project(g, trace, SetOf(g, addr)), TagOf(g, addr));
  }

  lemma {:induction false} ProjectSame(g: Geometry, h: Geometry, trace: seq<nat>, i: nat)
    requires g.s == h.s && g.b == h.b
    ensures Project(g, trace, i) == Project(h, trace, i)
  {
    if trace != [] {
      ProjectSame(g, h, trace[..|trace| - 1], i);
    }
  }

  /** Inclusion, for the same sets with more lines each. */
  lemma Inclusion(g: Geometry, h: Geometry, trace: seq<nat>, i: nat, tag: int)
    requires g.s == h.s && g.b == h.b && 1 <= g.E <= h.E && tag in Held(g, trace, i)
    ensures tag in Held(h, trace, i)
  {
    ProjectSame(g, h, trace, i);
    Lru.Inclusion(g.E, h.E, Project(g, trace, i), tag);
  }

  /** On every trace the hit count does not drop as E grows. */
  lemma {:induction false} HitsGrow(g: Geometry, h: Geometry, trace: seq<nat>)
    requires g.s == h.s && g.b == h.b && 1 <= g.E <= h.E
    ensures Hits(g, trace) <= Hits(h, trace)
  {
    if trace != [] {
      var init, x := trace[..|trace| - 1], trace[|trace| - 1];
      HitsGrow(g, h, init);
      if IsHit(g, init, x) {
        Inclusion(g, h, init, SetOf(g, x), TagOf(g, x));
      }
    }
  }

  /** The lines in use in the first n sets. */
  ghost function LinesInUse(g: Geometry, trace: seq<nat>, n: nat): nat
    requires g.E >= 1
  {
    if n == 0 then 0 else LinesInUse(g, trace, n - 1) + |Held(g, trace, n - 1)|
  }

  /** A set gains a line when the access maps to it and neither hits nor evicts. */
  lemma HeldSize(g: Geometry, trace: seq<nat>, addr: nat, i: nat)
    requires g.E >= 1
    ensures |Held(g, trace + [addr], i)| == |Held(g, trace, i)|
            + (if SetOf(g, addr) == i then Bit(!IsHit(g, trace, addr) && !IsEviction(g, trace, addr)) else 0)
  {
    hide SetOf, TagOf;
    HeldStep(g, trace, addr, i);
    Lru.TouchKeeps(g.E, Held(g, trace, i), TagOf(g, addr));
  }

  lemma {:induction false} LinesStep(g: Geometry, trace: seq<nat>, addr: nat, n: nat)
    requires g.E >= 1
    ensures LinesInUse(g, trace + [addr], n) == LinesInUse(g, trace, n)
            + (if SetOf(g, addr) < n then Bit(!IsHit(g, trace, addr) && !IsEviction(g, trace, addr)) else 0)
  {
    hide SetOf, Held, IsHit, IsEviction;
    if n > 0 {
      LinesStep(g, trace, addr, n - 1);
      HeldSize(g, trace, addr, n - 1);
    }
  }

  lemma {:induction false} NoLines(g: Geometry, n: nat)
    requires g.E >= 1
    ensures LinesInUse(g, [], n) == 0
  {
    if n > 0 {
      NoLines(g, n - 1);
    }
  }

  /** Misses less evictions are the lines in use over all sets. */
  lemma {:induction false} Conservation(g: Geometry, trace: seq<nat>)
    requires g.E >= 1
    ensures |trace| - Hits(g, trace) - Evictions(g, trace) == LinesInUse(g, trace, Pow2(g.s))
  {
    if trace == [] {
      NoLines(g, Pow2(g.s));
    } else {
      var init, x := trace[..|trace| - 1], trace[|trace| - 1];
      assert trace == init + [x];
      Conservation(g, init);
      LinesStep(g, init, x, Pow2(g.s));
    }
  }

  /** A trace line: M is a load and a store. */
  datatype Op = Op(isModify: bool, addr: nat)

  function Accesses(ops: seq<Op>): seq<nat> {
    if ops == [] then []
    else
      var op := ops[|ops| - 1];
      Accesses(ops[..|ops| - 1]) + if op.isModify then [op.addr, op.addr] else [op.addr]
  }

  /** The trace lines that are an M. */
  ghost function ModifyLines(ops: seq<Op>): set<int> {
    set k | 0 <= k < |ops| && ops[k].isModify
  }

  ghost function Modifies(ops: seq<Op>): nat {
    |ModifyLines(ops)|
  }

  lemma ModifiesStep(ops: seq<Op>)
    requires ops != []
    ensures Modifies(ops) == Modifies(ops[..|ops| - 1]) + Bit(ops[|ops| - 1].isModify)
  {
    var n := |ops| - 1;
    assert ModifyLines(ops) == ModifyLines(ops[..n]) + if ops[n].isModify then {n} else {};
  }

  /** One access a line, and one more for each M. */
  lemma {:induction false} AccessCount(ops: seq<Op>)
    ensures |Accesses(ops)| == |ops| + Modifies(ops)
  {
    if ops != [] {
      AccessCount(ops[..|ops| - 1]);
      ModifiesStep(ops);
    } else {
      assert ModifyLines(ops) == {};
    }
  }

  /** The accesses of line k come after those of the lines before it; an M is two accesses to its address. */
  lemma {:induction false} AccessAt(ops: seq<Op>, k: nat)
    requires k < |ops|
    ensures var p := k + Modifies(ops[..k]);
            && p + Bit(ops[k].isModify) < |Accesses(ops)|
            && Accesses(ops)[p] == ops[k].addr && Accesses(ops)[p + Bit(ops[k].isModify)] == ops[k].addr
  {
    var init := ops[..|ops| - 1];
    AccessCount(init);
    if k < |init| {
      AccessAt(init, k);
      assert init[..k] == ops[..k];
    }
  }

  /** The second access of an M always hits. */
  lemma SecondAccessHits(g: Geometry, trace: seq<nat>, addr: nat)
    requires g.E >= 1
    ensures IsHit(g, trace + [addr], addr)
  {
    HeldStep(g, trace, addr, SetOf(g, addr));
    Lru.TouchKeeps(g.E, Held(g, trace, SetOf(g, addr)), TagOf(g, addr));
  }

  /** So every M brings a hit. */
  lemma {:induction false} ModifiesHit(g: Geometry, ops: seq<Op>)
    requires g.E >= 1
    ensures Hits(g, Accesses(ops)) >= Modifies(ops)
  {
    hide IsHit, IsEviction;
    if ops == [] {
      assert ModifyLines(ops) == {};
    } else {
      var n := |ops| - 1;
      var before, addr := Accesses(ops[..n]), ops[n].addr;
      ModifiesHit(g, ops[..n]);
      ModifiesStep(ops);
      CountStep(g, before, addr);
      if ops[n].isModify {
        SecondAccessHits(g, before, addr);
        CountStep(g, before + [addr], addr);
        assert before + [addr, addr] == before + [addr] + [addr];
      }
    }
  }

  ghost function HitSet(g: Geometry, trace: seq<nat>): set<int>
    requires g.E >= 1
  {
    set k | 0 <= k < |trace| && IsHit(g, trace[..k], trace[k])
  }

  ghost function EvictionSet(g: Geometry, trace: seq<nat>): set<int>
    requires g.E >= 1
  {
    set k | 0 <= k < |trace| && IsEviction(g, trace[..k], trace[k])
  }

  lemma SetsStep(g: Geometry, init: seq<nat>, x: nat)
    requires g.E >= 1
    ensures HitSet(g, init + [x]) == HitSet(g, init) + if IsHit(g, init, x) then {|init|} else {}
    ensures EvictionSet(g, init + [x]) == EvictionSet(g, init) + if IsEviction(g, init, x) then {|init|} else {}
  {
    hide IsHit, IsEviction;
    var trace := init + [x];
    assert forall k :: 0 <= k < |init| ==> trace[..k] == init[..k] && trace[k] == init[k];
    assert trace[..|init|] == init;
  }

  /** Hits and Evictions count the accesses that hit, and that evict. */
  lemma {:induction false} CountsAre(g: Geometry, trace: seq<nat>)
    requires g.E >= 1
    ensures Hits(g, trace) == |HitSet(g, trace)| && Evictions(g, trace) == |EvictionSet(g, trace)|
  {
    hide IsHit, IsEviction;
    if trace == [] {
      assert HitSet(g, trace) == {} && EvictionSet(g, trace) == {};
    } else {
      var init, x := trace[..|trace| - 1], trace[|trace| - 1];
      assert trace == init + [x];
      CountsAre(g, init);
      SetsStep(g, init, x);
      assert |init| !in HitSet(g, init) && |init| !in EvictionSet(g, init);
    }
  }
}
