/** Buffered robust input: exact streams out of short, interrupted reads. */
module Rio {

  type Byte = x: int | 0 <= x < 256

  const NEWLINE: Byte := 10
  const RIO_BUFSIZE := 8192

  /** How a call of read may turn out, as the kernel decides: interrupted, failed, or a chunk of at most k + 1 bytes. */
  datatype Event = Interrupt | Failure | Chunk(k: nat)

  datatype ReadResult = Interrupted | Failed | Got(data: seq<Byte>)

  /** The hard failures among the events to come. */
  ghost function Failures(events: seq<Event>): (n: nat)
    ensures n > 0 <==> Failure in events
  {
    if events == [] then 0 else (if events[0] == Failure then 1 else 0) + Failures(events[1..])
  }

  /** The next read that is not interrupted fails. */
  ghost predicate FailsNext(events: seq<Event>) {
    events != [] && (events[0] == Failure || (events[0] == Interrupt && FailsNext(events[1..])))
  }

  /** A descriptor: the bytes not yet read, and the events to come; end of file is permanent. */
  class Descriptor {
    var rest: seq<Byte>
    var events: seq<Event>

    constructor (input: seq<Byte>, events: seq<Event>)
      ensures rest == input && this.events == events
    {
      rest, this.events := input, events;
    }

    /** read: between 1 and n bytes, none exactly at end of file. */
    method Read(n: nat) returns (r: ReadResult)
      requires n > 0
      modifies this
      ensures r.Got? ==> |r.data| <= n && old(rest) == r.data + rest && (r.data == [] <==> old(rest) == [])
      ensures !r.Got? ==> rest == old(rest) && |events| < |old(events)|
      ensures events == if old(events) == [] then [] else old(events)[1..]
      ensures r == Failed <==> old(events) != [] && old(events)[0] == Failure
      ensures r == Interrupted <==> old(events) != [] && old(events)[0] == Interrupt
      ensures Failures(events) == Failures(old(events)) - (if r == Failed then 1 else 0)
    {
      var e := if events == [] then Chunk(n - 1) else events[0];
      events := if events == [] then [] else events[1..];
      match e {
        case Interrupt => r := Interrupted;
        case Failure => r := Failed;
        case Chunk(k) =>
          var len := if k + 1 < n then k + 1 else n;
          len := if |rest| < len then |rest| else len;
          r := Got(rest[..len]);
          rest := rest[len..];
      }
    }
  }

  /** The length of the first line of s: through the first newline, but no more than max bytes. */
  function LineLength(s: seq<Byte>, max: nat): (n: nat)
    ensures n <= |s| && n <= max
  {
    if s == [] || max == 0 then 0 else if s[0] == NEWLINE then 1 else 1 + LineLength(s[1..], max - 1)
  }

  /** It is the shortest prefix that ends in a newline, or has max bytes, or is everything. */
  lemma {:induction false} LineLengthIs(s: seq<Byte>, max: nat)
    ensures var n := LineLength(s, max);
            && (forall k :: 0 <= k < n - 1 ==> s[k] != NEWLINE)
            && (n == max || n == |s| || (n > 0 && s[n - 1] == NEWLINE))
  {
    if s != [] && max != 0 && s[0] != NEWLINE {
      LineLengthIs(s[1..], max - 1);
      var n := LineLength(s[1..], max - 1);
      forall k | 0 <= k < n ensures s[k] != NEWLINE {
        if k > 0 {
          assert s[1..][k - 1] == s[k];
        }
      }
      assert n > 0 ==> s[1..][n - 1] == s[n];
    }
  }

  lemma {:induction false} LineLengthUnique(s: seq<Byte>, max: nat, n: nat)
    requires n <= |s| && n <= max
    requires forall k :: 0 <= k < n - 1 ==> s[k] != NEWLINE
    requires n == max || n == |s| || (n > 0 && s[n - 1] == NEWLINE)
    ensures n == LineLength(s, max)
  {
    if s != [] && max != 0 {
      if s[0] == NEWLINE {
      } else {
        LineLengthUnique(s[1..], max - 1, n - 1);
      }
    }
  }

  class RioBuffer {
    const fd: Descriptor
    const buf: array<Byte>
    var cnt: int
    var bufptr: nat

    predicate Valid()
      reads this
    {
      buf.Length == RIO_BUFSIZE && cnt <= RIO_BUFSIZE && (cnt > 0 ==> bufptr + cnt <= RIO_BUFSIZE)
    }

    /** What has been read from the descriptor and not yet handed out. */
    ghost function Unread(): seq<Byte>
      requires Valid()
      reads this, buf
    {
      if cnt > 0 then buf[bufptr..bufptr + cnt] else []
    }

    /** All that is still to come. */
    ghost function Stream(): seq<Byte>
      requires Valid()
      reads this, buf, fd
    {
      Unread() + fd.rest
    }

    /** rio_readinitb */
    constructor (fd: Descriptor)
      ensures Valid() && this.fd == fd && fresh(buf) && Stream() == fd.rest
    {
      this.fd := fd;
      buf := new Byte[RIO_BUFSIZE](_ => 0);
      cnt, bufptr := 0, 0;
    }

    /** The refill loop of rio_read: 1 with bytes at hand, 0 at end of file, -1 on an error. */
    method Refill() returns (state: int)
      requires Valid()
      modifies this`cnt, this`bufptr, buf, fd
      ensures Valid() && Stream() == old(Stream())
      ensures state == 1 || state == 0 || state == -1
      ensures state == 1 <==> cnt > 0
      ensures state == 0 ==> Stream() == []
      ensures state == -1 <==> old(cnt) <= 0 && FailsNext(old(fd.events))
      ensures Failures(fd.events) == Failures(old(fd.events)) - (if state == -1 then 1 else 0)
    {
      while cnt <= 0
        invariant Valid() && Stream() == old(Stream())
        invariant Failures(fd.events) == Failures(old(fd.events))
        invariant cnt <= 0 ==> (FailsNext(fd.events) <==> FailsNext(old(fd.events))) && old(cnt) <= 0
        invariant cnt > 0 ==> old(cnt) > 0 || !FailsNext(old(fd.events))
        decreases cnt <= 0, |fd.events|
      {
        var r := fd.Read(buf.Length);
        match r {
          case Failed =>
            cnt := -1;
            return -1;
          case Interrupted =>
            cnt := -1;
          case Got(data) =>
            cnt := |data|;
            if cnt == 0 {
              return 0;
            }
            bufptr := 0;
            forall k | 0 <= k < |data| {
              buf[k] := data[k];
            }
            assert Unread() == data;
        }
      }
      return 1;
    }

    /** rio_read: refill when empty, then hand out at most n bytes. */
    method Read(dst: array<Byte>, at: nat, n: nat) returns (rc: int)
      requires Valid() && dst != buf && at + n <= dst.Length
      modifies this`cnt, this`bufptr, buf, fd, dst
      ensures Valid() && -1 <= rc <= n
      ensures rc == -1 ==> Stream() == old(Stream())
      ensures rc == -1 <==> old(cnt) <= 0 && FailsNext(old(fd.events))
      ensures rc >= 0 ==> old(Stream()) == dst[at..at + rc] + Stream()
      ensures rc == 0 ==> n == 0 || Stream() == []
      ensures forall k :: 0 <= k < dst.Length && !(at <= k < at + rc) ==> dst[k] == old(dst[k])
      ensures Failures(fd.events) == Failures(old(fd.events)) - (if rc == -1 then 1 else 0)
    {
      hide Stream, Unread;
      var state := Refill();
      if state != 1 {
        assert dst[at..at] == [];
        return state;
      }
      rc := if cnt < n then cnt else n;
      HandOut(dst, at, rc);
    }

    /** The memcpy of rio_read. */
    method HandOut(dst: array<Byte>, at: nat, c: nat)
      requires Valid() && dst != buf && at + c <= dst.Length && c <= cnt
      modifies this`cnt, this`bufptr, dst
      ensures Valid() && old(Stream()) == dst[at..at + c] + Stream()
      ensures forall k :: 0 <= k < dst.Length && !(at <= k < at + c) ==> dst[k] == old(dst[k])
    {
      ghost var u, rest := Unread(), fd.rest;
      forall k | 0 <= k < c {
        dst[at + k] := buf[bufptr + k];
      }
      bufptr := bufptr + c;
      cnt := cnt - c;
      Split(u, rest, c);
      assert dst[at..at + c] == u[..c];
      assert Unread() == u[c..];
    }

    /** rio_readnb: n bytes, or all that is left. */
    method ReadNb(dst: array<Byte>, n: nat) returns (rc: int)
      requires Valid() && dst != buf && n <= dst.Length
      modifies this`cnt, this`bufptr, buf, fd, dst
      ensures Valid() && -1 <= rc <= n
      ensures rc >= 0 ==> rc == (if |old(Stream())| < n then |old(Stream())| else n)
      ensures rc >= 0 ==> old(Stream()) == dst[..rc] + Stream()
      ensures Failures(fd.events) == Failures(old(fd.events)) - (if rc == -1 then 1 else 0)
    {
      hide Stream, Unread, Failures, FailsNext;
      var nleft, at := n, 0;
      ghost var s0, done := Stream(), [];
      assert done + s0 == s0;
      while nleft > 0
        invariant Valid() && 0 <= at && 0 <= nleft && at + nleft == n
        invariant dst[..at] == done && s0 == done + Stream()
        invariant Failures(fd.events) == Failures(old(fd.events))
        decreases nleft
      {
        var nread := Read(dst, at, nleft);
        if nread < 0 {
          return -1;
        } else if nread == 0 {
          assert dst[at..at] == [];
          break;
        }
        ghost var piece := dst[at..at + nread];
        Join(done, piece, Stream());
        assert dst[..at + nread] == dst[..at] + piece;
        done := done + piece;
        nleft := nleft - nread;
        at := at + nread;
      }
      rc := n - nleft;
    }

    /** rio_read of one byte into a local variable. */
    method NextByte() returns (rc: int, c: Byte)
      requires Valid()
      modifies this`cnt, this`bufptr, buf, fd
      ensures Valid() && -1 <= rc <= 1
      ensures rc == 0 ==> Stream() == old(Stream()) == []
      ensures rc == 1 ==> old(Stream()) == [c] + Stream()
      ensures Failures(fd.events) == Failures(old(fd.events)) - (if rc == -1 then 1 else 0)
    {
      var one := new Byte[1](_ => 0);
      rc := Read(one, 0, 1);
      c := one[0];
      assert rc == 1 ==> one[0..1] == [c];
      assert rc == 0 ==> one[0..0] == [];
    }

    /** The terminating zero byte. */
    method PutZero(dst: array<Byte>, n: nat)
      requires dst != buf && n < dst.Length
      modifies dst
      ensures dst[..n] == old(dst[..n]) && dst[n] == 0
    {
      dst[n] := 0;
    }

    /** rio_readlineb: the next line of the stream, terminated by a zero byte. */
    method ReadLineB(dst: array<Byte>, maxlen: nat) returns (rc: int)
      requires Valid() && dst != buf && 1 <= maxlen <= dst.Length
      modifies this`cnt, this`bufptr, buf, fd, dst
      ensures Valid() && -1 <= rc < maxlen
      ensures rc >= 0 ==> rc == LineLength(old(Stream()), maxlen - 1)
      ensures rc >= 0 ==> old(Stream()) == dst[..rc] + Stream()
      ensures rc > 0 ==> dst[rc] == 0
      ensures Failures(fd.events) == Failures(old(fd.events)) - (if rc == -1 then 1 else 0)
    {
      hide LineLength, Stream, Unread, Failures;
      LineEnds();
      var n := 1;
      ghost var s0, done := Stream(), [];
      assert done + s0 == s0;
      while n < maxlen
        invariant Valid() && 1 <= n <= maxlen
        invariant |done| == n - 1 && dst[..n - 1] == done && s0 == done + Stream()
        invariant LineLength(s0, maxlen - 1) == n - 1 + LineLength(Stream(), maxlen - n)
        invariant Failures(fd.events) == Failures(old(fd.events))
        decreases maxlen - n
      {
        ghost var s := Stream();
        var got, c := NextByte();
        if got == 1 {
          LineStep(s0, done, s, c, Stream(), maxlen - n);
          done := done + [c];
          dst[n - 1] := c;
          assert dst[..n] == done;
          if c == NEWLINE {
            n := n + 1;
            break;
          }
        } else if got == 0 {
          if n == 1 {
            return 0;
          }
          break;
        } else {
          return -1;
        }
        n := n + 1;
      }
      assert s0 == done + Stream();
      PutZero(dst, n - 1);
      rc := n - 1;
    }
  }

  lemma Split(u: seq<Byte>, rest: seq<Byte>, c: nat)
    requires c <= |u|
    ensures u + rest == u[..c] + (u[c..] + rest)
  {
  }

  lemma Join(a: seq<Byte>, b: seq<Byte>, c: seq<Byte>)
    ensures a + (b + c) == (a + b) + c
  {
  }

  lemma LineEnds()
    ensures forall s :: LineLength(s, 0) == 0
    ensures forall max :: LineLength([], max) == 0
  {
  }

  /** Taking one byte of the line. */
  lemma LineStep(s0: seq<Byte>, done: seq<Byte>, s: seq<Byte>, c: Byte, s': seq<Byte>, max: nat)
    requires s0 == done + s && max >= 1
    ensures s == [c] + s' ==>
              s0 == (done + [c]) + s' && LineLength(s, max) == if c == NEWLINE then 1 else 1 + LineLength(s', max - 1)
  {
    Join(done, [c], s');
    assert ([c] + s')[1..] == s';
  }

  /** A request of a client: a line into a buffer of maxlen bytes, or a block of n bytes. */
  datatype Want = Line(maxlen: nat) | Block(n: nat)

  predicate Sensible(wants: seq<Want>) {
    forall i :: 0 <= i < |wants| ==> wants[i].Line? ==> wants[i].maxlen >= 1
  }

  /** What a request takes off the front of the stream. */
  function Taken(w: Want, s: seq<Byte>): (n: nat)
    requires w.Line? ==> w.maxlen >= 1
    ensures n <= |s|
  {
    match w
    case Line(maxlen) => LineLength(s, maxlen - 1)
    case Block(n) => if |s| < n then |s| else n
  }

  /** The stream cut into the consecutive segments that the requests take. */
  function Segments(wants: seq<Want>, s: seq<Byte>): (parts: seq<seq<Byte>>)
    requires Sensible(wants)
    ensures |parts| == |wants|
  {
    if wants == [] then []
    else
      var n := Taken(wants[0], s);
      [s[..n]] + Segments(wants[1..], s[n..])
  }

  function Flatten(parts: seq<seq<Byte>>): seq<Byte> {
    if parts == [] then [] else parts[0] + Flatten(parts[1..])
  }

  function Leftover(wants: seq<Want>, s: seq<Byte>): seq<Byte>
    requires Sensible(wants)
  {
    if wants == [] then s else Leftover(wants[1..], s[Taken(wants[0], s)..])
  }

  /** Nothing of the stream is lost, repeated or reordered. */
  lemma {:induction false} SegmentsTile(wants: seq<Want>, s: seq<Byte>)
    requires Sensible(wants)
    ensures Flatten(Segments(wants, s)) + Leftover(wants, s) == s
  {
    if wants != [] {
      var n := Taken(wants[0], s);
      SegmentsTile(wants[1..], s[n..]);
      assert Segments(wants, s)[1..] == Segments(wants[1..], s[n..]);
      assert s == s[..n] + s[n..];
    }
  }

  lemma {:induction false} SegmentsSnoc(wants: seq<Want>, w: Want, s: seq<Byte>)
    requires Sensible(wants + [w])
    ensures Sensible(wants) && (w.Line? ==> w.maxlen >= 1)
    ensures var l := Leftover(wants, s);
            && Segments(wants + [w], s) == Segments(wants, s) + [l[..Taken(w, l)]]
            && Leftover(wants + [w], s) == l[Taken(w, l)..]
  {
    assert (wants + [w])[|wants|] == w;
    assert forall i :: 0 <= i < |wants| ==> (wants + [w])[i] == wants[i];
    if wants != [] {
      assert (wants + [w])[1..] == wants[1..] + [w];
      SegmentsSnoc(wants[1..], w, s[Taken(wants[0], s)..]);
    }
  }

  /**
    Any mix of line and block requests, under any chunking and any interruptions: without a hard
    error they return the consecutive segments of the stream.
    */
  method ServeAll(r: RioBuffer, wants: seq<Want>) returns (ok: bool, parts: seq<seq<Byte>>)
    requires r.Valid() && Sensible(wants)
    modifies r`cnt, r`bufptr, r.buf, r.fd
    ensures r.Valid()
    ensures Failures(r.fd.events) == Failures(old(r.fd.events)) - (if ok then 0 else 1)
    ensures ok ==> parts == Segments(wants, old(r.Stream())) && r.Stream() == Leftover(wants, old(r.Stream()))
  {
    hide RioBuffer.Stream, RioBuffer.Unread, RioBuffer.Valid, LineLength, Failures;
    ghost var s := r.Stream();
    parts := [];
    var i := 0;
    while i < |wants|
      invariant 0 <= i <= |wants| && r.Valid() && Sensible(wants[..i])
      invariant parts == Segments(wants[..i], s) && r.Stream() == Leftover(wants[..i], s)
      invariant Failures(r.fd.events) == Failures(old(r.fd.events))
    {
      var w := wants[i];
      assert wants[..i + 1] == wants[..i] + [w];
      SegmentsSnoc(wants[..i], w, s);
      var size := if w.Line? then w.maxlen else w.n;
      var dst := new Byte[size](_ => 0);
      ghost var before := r.Stream();
      var rc: int;
      if w.Line? {
        rc := r.ReadLineB(dst, size);
      } else {
        rc := r.ReadNb(dst, size);
      }
      if rc < 0 {
        return false, parts;
      }
      Cut(before, dst[..rc], r.Stream());
      parts := parts + [dst[..rc]];
      i := i + 1;
    }
    assert wants[..i] == wants;
    ok := true;
  }

  lemma Cut(s: seq<Byte>, a: seq<Byte>, b: seq<Byte>)
    requires s == a + b
    ensures s[..|a|] == a && s[|a|..] == b
  {
  }
}
