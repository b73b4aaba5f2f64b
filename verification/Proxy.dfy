/** The proxy's requests: look the url up, or relay the server's response line by line and keep it if it is small. */
module Proxy {
  import opened Rio
  import opened ProxyCache
  import opened Retention

  const MAXLINE := 8192
  const MAX_CACHE_SIZE := 1049000
  const MAX_OBJECT_SIZE := 102400

  /** buffer_t: the copy of the response made on the way through. */
  class Buffer {
    const data: array<Byte>
    var size: nat
    var cacheable: bool

    constructor ()
      ensures Valid() && size == 0 && cacheable && fresh(data)
    {
      data := new Byte[MAX_OBJECT_SIZE](_ => 0);
      size, cacheable := 0, true;
    }

    predicate Valid()
      reads this
    {
      data.Length == MAX_OBJECT_SIZE && size < MAX_OBJECT_SIZE
    }

    /** The copying part of the relay loop. */
    method Keep(buf: array<Byte>, n: nat, ghost sent: seq<Byte>)
      requires Valid() && n <= buf.Length && buf != data
      requires cacheable <==> |sent| < MAX_OBJECT_SIZE
      requires cacheable ==> data[..size] == sent
      modifies this`size, this`cacheable, data
      ensures Valid()
      ensures cacheable <==> |sent| + n < MAX_OBJECT_SIZE
      ensures cacheable ==> data[..size] == sent + buf[..n]
    {
      if cacheable {
        if size + n < MAX_OBJECT_SIZE {
          forall k | 0 <= k < n {
            data[size + k] := buf[k];
          }
          size := size + n;
          assert data[..size] == sent + buf[..n];
        } else {
          cacheable := false;
        }
      }
    }
  }

  /** The relay loop: forwards the whole response, and keeps a copy of it if it is small enough. */
  method Relay(server: RioBuffer, buffer: Buffer) returns (ok: bool, forwarded: seq<Byte>)
    requires server.Valid() && buffer.Valid() && buffer.size == 0 && buffer.cacheable && buffer.data != server.buf
    modifies server`cnt, server`bufptr, server.buf, server.fd, buffer`size, buffer`cacheable, buffer.data
    ensures server.Valid() && buffer.Valid()
    ensures Failures(server.fd.events) == Failures(old(server.fd.events)) - (if ok then 0 else 1)
    ensures ok ==> forwarded == old(server.Stream()) && server.Stream() == []
    ensures ok ==> (buffer.cacheable <==> |forwarded| < MAX_OBJECT_SIZE)
    ensures ok && buffer.cacheable ==> buffer.data[..buffer.size] == forwarded
  {
    hide RioBuffer.Stream, RioBuffer.Unread, RioBuffer.Valid, LineLength;
    var buf := new Byte[MAXLINE](_ => 0);
    ghost var s := server.Stream();
    forwarded := [];
    assert buffer.data[..0] == [];
    while true
      invariant server.Valid() && buffer.Valid()
      invariant s == forwarded + server.Stream()
      invariant Failures(server.fd.events) == Failures(old(server.fd.events))
      invariant buffer.cacheable <==> |forwarded| < MAX_OBJECT_SIZE
      invariant buffer.cacheable ==> buffer.data[..buffer.size] == forwarded
      decreases |server.Stream()|
    {
      ghost var before := server.Stream();
      var n := server.ReadLineB(buf, MAXLINE);
      if n < 0 {
        return false, forwarded;
      }
      LineIsSomething(before, MAXLINE - 1);
      if n == 0 {
        break;
      }
      Join(forwarded, buf[..n], server.Stream());
      buffer.Keep(buf, n, forwarded);
      forwarded := forwarded + buf[..n];
    }
    ok := true;
  }

  /** A line is empty only at end of file. */
  lemma LineIsSomething(s: seq<Byte>, max: nat)
    requires max >= 1
    ensures LineLength(s, max) == 0 <==> s == []
  {
  }

  /** The log has one more entry: this data for this url. */
  ghost predicate Logged(log: seq<Object>, log': seq<Object>, url: string, data: seq<Byte>) {
    && |log'| == |log| + 1 && log'[..|log|] == log
    && log'[|log|].url == url && log'[|log|].data == data && log'[|log|].size == |data|
  }

  lemma PushedIs(nodes: seq<Object>, nodes': seq<Object>, o: Object, max: nat)
    requires exists m :: 0 <= m <= |nodes| && nodes' == [o] + nodes[..m] && Keeps(nodes, o.size, max, m)
    ensures Pushed(nodes, nodes', o.url, o.size, max)
  {
    hide Keeps;
    var m :| 0 <= m <= |nodes| && nodes' == [o] + nodes[..m] && Keeps(nodes, o.size, max, m);
    assert |nodes'| - 1 == m;
  }

  /** add_to_cache */
  method AddToCache(cache: Cache, url: string, data: seq<Byte>)
    requires cache.Valid()
    modifies cache, cache.nodes
    ensures cache.Valid()
    ensures Logged(old(cache.inserted), cache.inserted, url, data)
    ensures Pushed(old(cache.nodes), cache.nodes, url, |data|, cache.maxSize)
    ensures forall o :: o in cache.nodes ==> o in old(cache.nodes) || (fresh(o) && o.url == url)
    ensures |data| <= cache.maxSize ==> cache.size <= cache.maxSize
  {
    var entry := new Object(|data|, url, data);
    ghost var nodes := cache.nodes;
    cache.Insert(entry);
    PushedIs(nodes, cache.nodes, entry, cache.maxSize);
  }

  /** What the exchange with the server changes: nothing when there is no connection. */
  ghost function Footprint(server: RioBuffer?): set<object>
  {
    if server == null then {} else {server, server.buf, server.fd}
  }

  /**
    deal_request, from the lookup on; server is null when the connection could not be made.
    A hit replays the object last stored for the url; a miss forwards the whole response and stores
    it exactly when it is shorter than MAX_OBJECT_SIZE.
    */
  method DealRequest(cache: Cache, url: string, server: RioBuffer?) returns (ok: bool, hit: bool, forwarded: seq<Byte>)
    requires cache.Valid() && (server != null ==> server.Valid())
    modifies cache, cache.nodes
    modifies Footprint(server)
    ensures cache.Valid()
    ensures hit <==> exists o :: o in old(cache.nodes) && o.url == url
    ensures hit ==> ok && cache.inserted == old(cache.inserted)
                    && LatestFor(cache.inserted, url) != null && forwarded == LatestFor(cache.inserted, url).data
    ensures !hit && server == null ==> cache.inserted == old(cache.inserted)
    ensures !hit && server != null && Failure !in old(server.fd.events) ==> ok
    ensures !hit && server != null && ok ==> forwarded == old(server.Stream())
    ensures !hit && server != null && ok ==>
              if |forwarded| < MAX_OBJECT_SIZE then Logged(old(cache.inserted), cache.inserted, url, forwarded)
              else cache.inserted == old(cache.inserted)
    ensures !ok ==> cache.inserted == old(cache.inserted)
    ensures forall o :: o in cache.nodes ==>
              o in old(cache.nodes) || (fresh(o) && o.url == url && cache.inserted != old(cache.inserted))
    ensures hit ==>
              && Find(old(cache.nodes), url) < |old(cache.nodes)|
              && old(cache.nodes)[Find(old(cache.nodes), url)] == LatestFor(cache.inserted, url)
              && cache.nodes == ToFront(old(cache.nodes), Find(old(cache.nodes), url))
    ensures !hit ==>
              if ok && server != null && |forwarded| < MAX_OBJECT_SIZE
              then Pushed(old(cache.nodes), cache.nodes, url, |forwarded|, cache.maxSize)
              else cache.nodes == old(cache.nodes)
    ensures cache.maxSize >= MAX_OBJECT_SIZE && old(cache.size) <= cache.maxSize ==> cache.size <= cache.maxSize
  {
    hide Cache.Valid, RioBuffer.Valid, RioBuffer.Stream, Logged, Pushed;
    ok, hit, forwarded := true, false, [];
    var obj := cache.Access(url);
    if obj != null {
      return true, true, obj.data;
    }
    var buffer := new Buffer();
    if server == null {
      return;
    }
    ok, forwarded := Relay(server, buffer);
    if ok && buffer.cacheable {
      AddToCache(cache, url, buffer.data[..buffer.size]);
    }
  }

  /** A client's request: whether its server can be reached, what it responds, and how the reads turn out. */
  datatype Request = Request(url: string, connects: bool, response: seq<Byte>, events: seq<Event>)

  /** What a client is told. */
  datatype Answer = FromServer(data: seq<Byte>) | FromCache(data: seq<Byte>) | Unavailable

  /** j is the last request before k for the url, and its client was given this data. */
  ghost predicate LastGiven(requests: seq<Request>, answers: seq<Answer>, url: string, k: nat, data: seq<Byte>,
                            j: int) {
    && 0 <= j < k <= |requests| && k <= |answers|
    && requests[j].url == url && (forall i :: j < i < k ==> requests[i].url != url)
    && !answers[j].Unavailable? && answers[j].data == data
  }

  ghost predicate Repeats(requests: seq<Request>, answers: seq<Answer>, url: string, k: nat, data: seq<Byte>) {
    exists j :: LastGiven(requests, answers, url, k, data, j)
  }

  /**
    The k-th answer is the response to the k-th request, or it is short and repeats the answer to the last
    request for the same url, or its server could not be reached.
    */
  ghost predicate Answered(requests: seq<Request>, answers: seq<Answer>, k: nat)
    requires k < |answers| <= |requests|
  {
    var a := answers[k];
    && (a.Unavailable? ==> !requests[k].connects)
    && (a.FromServer? ==> requests[k].connects && a.data == requests[k].response)
    && (a.FromCache? ==>
         && |a.data| < MAX_OBJECT_SIZE
         && Repeats(requests, answers, requests[k].url, k, a.data))
  }

  /** For each cached url, the object logged last is short and is what the last request for it was answered. */
  ghost predicate Current(urls: set<string>, log: seq<Object>, requests: seq<Request>, answers: seq<Answer>, k: nat) {
    && k == |answers| <= |requests|
    && forall u {:trigger LatestFor(log, u)} :: u in urls ==>
         && LatestFor(log, u) != null && LatestFor(log, u).size == |LatestFor(log, u).data| < MAX_OBJECT_SIZE
         && Repeats(requests, answers, u, k, LatestFor(log, u).data)
  }

  /** A request and its answer, with the cached urls and the log before and after. */
  ghost predicate Exchange(urls: set<string>, urls': set<string>, log: seq<Object>, log': seq<Object>,
                           request: Request, a: Answer) {
    && (a.FromCache? <==> request.url in urls)
    && (a.FromCache? ==> LatestFor(log, request.url) != null && a.data == LatestFor(log, request.url).data)
    && (a.FromServer? ==> request.connects && a.data == request.response)
    && (a.Unavailable? ==> !request.connects)
    && if a.FromServer? && |a.data| < MAX_OBJECT_SIZE
       then Logged(log, log', request.url, a.data) && urls' <= urls + {request.url}
       else log' == log && urls' <= urls
  }

  ghost function Urls(nodes: seq<Object>): set<string> {
    set o | o in nodes :: o.url
  }

  lemma NothingCached(requests: seq<Request>)
    ensures Current(Urls([]), [], requests, [], 0)
  {
  }

  /** One request and answer more, for another url or for this one. */
  lemma LastStep(requests: seq<Request>, answers: seq<Answer>, a: Answer, url: string, k: nat, data: seq<Byte>, j: int)
    requires k < |requests| && k <= |answers|
    ensures LastGiven(requests, answers, url, k, data, j) ==> LastGiven(requests, answers + [a], url, k, data, j)
    ensures LastGiven(requests, answers, url, k, data, j) && requests[k].url != url ==>
              LastGiven(requests, answers + [a], url, k + 1, data, j)
    ensures k == |answers| && requests[k].url == url && !a.Unavailable? ==>
              LastGiven(requests, answers + [a], url, k + 1, a.data, k)
  {
  }

  lemma LatestStep(log: seq<Object>, log': seq<Object>, url: string, data: seq<Byte>, u: string)
    requires Logged(log, log', url, data)
    ensures if u == url
            then LatestFor(log', u) != null && LatestFor(log', u).data == data && LatestFor(log', u).size == |data|
            else LatestFor(log', u) == LatestFor(log, u)
  {
  }

  /** One answer more: it is as it should be, and what is cached stays current. */
  lemma AnswerStep(urls: set<string>, urls': set<string>, log: seq<Object>, log': seq<Object>,
                   requests: seq<Request>, answers: seq<Answer>, a: Answer, k: nat)
    requires Current(urls, log, requests, answers, k) && k < |requests|
    requires Exchange(urls, urls', log, log', requests[k], a)
    ensures Answered(requests, answers + [a], k)
    ensures Current(urls', log', requests, answers + [a], k + 1)
  {
    hide Logged, LastGiven;
    var url, answers' := requests[k].url, answers + [a];
    if a.FromCache? {
      var j :| LastGiven(requests, answers, url, k, a.data, j);
      LastStep(requests, answers, a, url, k, a.data, j);
    }
    forall u | u in urls'
      ensures LatestFor(log', u) != null && LatestFor(log', u).size == |LatestFor(log', u).data| < MAX_OBJECT_SIZE
      ensures Repeats(requests, answers', u, k + 1, LatestFor(log', u).data)
    {
      if a.FromServer? && |a.data| < MAX_OBJECT_SIZE {
        LatestStep(log, log', url, a.data, u);
      }
      if u == url {
        LastStep(requests, answers, a, u, k, a.data, k);
      } else {
        var data := LatestFor(log, u).data;
        var j :| LastGiven(requests, answers, u, k, data, j);
        LastStep(requests, answers, a, u, k, data, j);
      }
    }
  }

  /** Answers already given stay right when one more is appended. */
  lemma AnsweredStays(requests: seq<Request>, answers: seq<Answer>, a: Answer, k: nat)
    requires k < |answers| < |requests| && Answered(requests, answers, k)
    ensures Answered(requests, answers + [a], k)
  {
    if answers[k].FromCache? {
      var j :| LastGiven(requests, answers, requests[k].url, k, answers[k].data, j);
      LastStep(requests, answers, a, requests[k].url, k, answers[k].data, j);
    }
  }

  /** What a client was given: short enough to be kept. */
  predicate Short(a: Answer) {
    !a.Unavailable? && |a.data| < 102_400
  }

  /** The uses of the cache that requests and answers make. */
  function VisitOf(request: Request, a: Answer): Visit {
    Visit(request.url, Short(a), if a.Unavailable? then 0 else |a.data|)
  }

  function Visits(requests: seq<Request>, answers: seq<Answer>): seq<Visit>
    requires |answers| <= |requests|
  {
    seq(|answers|, i requires 0 <= i < |answers| => VisitOf(requests[i], answers[i]))
  }

  /**
    When the last request for the url was given a short answer, the k-th is answered from the cache exactly
    when the different objects found or stored from then on are together no larger than the cache.
    */
  ghost predicate Kept(requests: seq<Request>, answers: seq<Answer>, k: nat)
    requires k < |answers| <= |requests|
  {
    var visits := Visits(requests, answers[..k]);
    forall j :: LastKept(visits, requests[k].url, j) ==> (answers[k].FromCache? <==> Working(visits, j) <= 1_049_000)
  }

  /** A request and its answer, with the cache's list before and after. */
  ghost predicate Handled(nodes: seq<Object>, nodes': seq<Object>, log: seq<Object>, request: Request, a: Answer,
                          max: nat) {
    var f := Find(nodes, request.url);
    && (a.FromCache? <==> f < |nodes|)
    && if a.FromCache? then nodes[f] == LatestFor(log, request.url) && nodes' == ToFront(nodes, f)
       else if Short(a) then Pushed(nodes, nodes', request.url, |a.data|, max)
       else nodes' == nodes
  }

  lemma UrlFound(nodes: seq<Object>, url: string)
    ensures url in Urls(nodes) <==> Find(nodes, url) < |nodes|
    ensures url in Urls(nodes) <==> exists o :: o in nodes && o.url == url
  {
  }

  lemma VisitsStep(requests: seq<Request>, answers: seq<Answer>, a: Answer)
    requires |answers| < |requests|
    ensures Visits(requests, answers + [a]) == Visits(requests, answers) + [VisitOf(requests[|answers|], a)]
    ensures (answers + [a])[..|answers|] == answers
  {
  }

  lemma UsedIs(nodes: seq<Object>, nodes': seq<Object>, log: seq<Object>, log': seq<Object>, requests: seq<Request>,
               answers: seq<Answer>, a: Answer, k: nat, max: nat)
    requires k == |answers| < |requests| && Handled(nodes, nodes', log, requests[k], a, max)
    requires Current(Urls(nodes), log, requests, answers, k)
    requires Exchange(Urls(nodes), Urls(nodes'), log, log', requests[k], a)
    ensures Used(nodes, nodes', VisitOf(requests[k], a), max)
  {
    hide Logged, Pushed, Repeats;
    UrlFound(nodes, requests[k].url);
  }

  /** One answer more: it comes from the cache when it should, and the cache retains what it should. */
  lemma KeptStep(nodes: seq<Object>, nodes': seq<Object>, log: seq<Object>, log': seq<Object>, requests: seq<Request>,
                 answers: seq<Answer>, a: Answer, k: nat)
    requires k == |answers| < |requests| && Handled(nodes, nodes', log, requests[k], a, 1_049_000)
    requires Current(Urls(nodes), log, requests, answers, k)
    requires Exchange(Urls(nodes), Urls(nodes'), log, log', requests[k], a)
    requires AllRetained(nodes, Visits(requests, answers), 1_049_000) && Bytes(nodes) <= 1_049_000
    ensures Kept(requests, answers + [a], k)
    ensures AllRetained(nodes', Visits(requests, answers + [a]), 1_049_000)
  {
    hide Visits, Used, Current, Exchange;
    var visits, url := Visits(requests, answers), requests[k].url;
    VisitsStep(requests, answers, a);
    UsedIs(nodes, nodes', log, log', requests, answers, a, k, 1_049_000);
    RetainStep(nodes, nodes', visits, VisitOf(requests[k], a), 1_049_000);
    forall j | LastKept(visits, url, j) ensures a.FromCache? <==> Working(visits, j) <= 1_049_000 {
      assert Retains(nodes, visits, j, 1_049_000);
    }
  }

  lemma KeptStays(requests: seq<Request>, answers: seq<Answer>, a: Answer, k: nat)
    requires k < |answers| < |requests| && Kept(requests, answers, k)
    ensures Kept(requests, answers + [a], k)
  {
    assert (answers + [a])[..k] == answers[..k];
  }

  lemma NothingRetained(requests: seq<Request>)
    ensures AllRetained([], Visits(requests, []), 1_049_000)
  {
  }

  lemma SizeIs(cache: Cache)
    requires cache.Valid()
    ensures cache.size == Bytes(cache.nodes)
  {
  }

  /** Connecting to the server, and deal_request. */
  method Respond(cache: Cache, request: Request) returns (a: Answer)
    requires cache.Valid() && Failure !in request.events
    modifies cache, cache.nodes
    ensures cache.Valid()
    ensures forall o :: o in cache.nodes ==> o in old(cache.nodes) || fresh(o)
    ensures Exchange(Urls(old(cache.nodes)), Urls(cache.nodes), old(cache.inserted), cache.inserted, request, a)
    ensures Handled(old(cache.nodes), cache.nodes, old(cache.inserted), request, a, cache.maxSize)
    ensures cache.maxSize >= MAX_OBJECT_SIZE && old(cache.size) <= cache.maxSize ==> cache.size <= cache.maxSize
  {
    hide Cache.Valid, RioBuffer.Valid, RioBuffer.Stream, Logged, Pushed;
    var server: RioBuffer? := null;
    if request.connects {
      var fd := new Descriptor(request.response, request.events);
      server := new RioBuffer(fd);
    }
    assert forall i | 0 <= i < |cache.nodes| :: cache.nodes[i] in cache.nodes;
    UrlFound(cache.nodes, request.url);
    var _, hit, forwarded := DealRequest(cache, request.url, server);
    a := if hit then FromCache(forwarded) else if server == null then Unavailable else FromServer(forwarded);
  }

  /**
    Any run of requests, some of whose servers cannot be reached: every client gets its server's whole
    response, or a short one that is what the last client asking for the same url got; and the latter
    exactly when what was asked for in between left room for it in the cache.
    */
  method Session(requests: seq<Request>) returns (answers: seq<Answer>)
    requires forall i :: 0 <= i < |requests| ==> Failure !in requests[i].events
    ensures |answers| == |requests|
    ensures forall k :: 0 <= k < |requests| ==> Answered(requests, answers, k)
    ensures forall k :: 0 <= k < |requests| ==> Kept(requests, answers, k)
  {
    hide Cache.Valid, RioBuffer.Valid, RioBuffer.Stream, Current, Answered, Logged, Kept, AllRetained, Handled,
         Exchange, Visits;
    var cache := new Cache(MAX_CACHE_SIZE);
    answers := [];
    NothingCached(requests);
    NothingRetained(requests);
    var k := 0;
    while k < |requests|
      invariant 0 <= k <= |requests| && |answers| == k
      invariant fresh(cache) && cache.Valid() && (forall o :: o in cache.nodes ==> fresh(o))
      invariant cache.maxSize == MAX_CACHE_SIZE && cache.size <= cache.maxSize
      invariant Current(Urls(cache.nodes), cache.inserted, requests, answers, k)
      invariant AllRetained(cache.nodes, Visits(requests, answers), 1_049_000)
      invariant forall j :: 0 <= j < k ==> Answered(requests, answers, j) && Kept(requests, answers, j)
    {
      assert forall i | 0 <= i < |cache.nodes| :: cache.nodes[i] in cache.nodes;
      ghost var nodes, log := cache.nodes, cache.inserted;
      SizeIs(cache);
      var a := Respond(cache, requests[k]);
      KeptStep(nodes, cache.nodes, log, cache.inserted, requests, answers, a, k);
      AnswerStep(Urls(nodes), Urls(cache.nodes), log, cache.inserted, requests, answers, a, k);
      forall j | 0 <= j < k ensures Answered(requests, answers + [a], j) && Kept(requests, answers + [a], j) {
        AnsweredStays(requests, answers, a, j);
        KeptStays(requests, answers, a, j);
      }
      answers := answers + [a];
      k := k + 1;
    }
  }

  /**
    Never stale: an answer from the cache is the response of the server to an earlier request for the url,
    and since then every client asking for the url has been given these same bytes from the cache.
    */
  lemma {:induction false} NeverStale(requests: seq<Request>, answers: seq<Answer>, k: nat) returns (j: nat)
    requires |answers| == |requests| && forall i :: 0 <= i < |requests| ==> Answered(requests, answers, i)
    requires k < |requests| && answers[k].FromCache?
    ensures j < k && requests[j].url == requests[k].url
    ensures answers[j] == FromServer(requests[j].response) && answers[k].data == requests[j].response
    ensures forall i :: j < i <= k && requests[i].url == requests[k].url ==>
              answers[i] == FromCache(requests[j].response)
  {
    assert Answered(requests, answers, k);
    var l :| LastGiven(requests, answers, requests[k].url, k, answers[k].data, l);
    assert Answered(requests, answers, l);
    j := l;
    if answers[l].FromCache? {
      j := NeverStale(requests, answers, l);
    }
  }

  /** A short answer is given again, without asking the server, for at least ten requests. */
  lemma TenRequests(requests: seq<Request>, answers: seq<Answer>, k: nat, j: nat)
    requires |answers| == |requests| && k < |requests| && Kept(requests, answers, k) && j < k <= j + 10
    requires requests[j].url == requests[k].url && Short(answers[j])
    requires forall i :: j < i < k ==> requests[i].url != requests[k].url
    ensures answers[k].FromCache?
  {
    var visits := Visits(requests, answers[..k]);
    assert LastKept(visits, requests[k].url, j);
    WorkingBound(visits, j, 102_399);
  }
}
