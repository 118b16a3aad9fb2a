/** The caching proxy's request handling. The cache is a `Cache` object whose
    two three-slot arrays and cursor are updated in place, as the globals
    `host_cache`, `ip_cache` and `idx` are; the backend's answer to a forwarded
    request is an input (`Backend`), since no socket is modelled. */
module Proxy {
  import opened Strings
  import opened Wire
  import opened CacheModel

  /** What the handler does with one request. */
  datatype Action =
    | Close               // leave the loop and close the connection, sending nothing
    | Send(reply: string) // send `reply` to the client and wait for the next request

  /** The backend's side of one `queryServer` call. */
  datatype Backend =
    | Unreachable          // socket() or connect() failed
    | Replied(reply: string) // the bytes of its one reply

  /** One connection: what was sent, whether it ended by closing, and the cache after. */
  datatype Session = Session(sent: seq<string>, closed: bool, cache: CacheState)

  /** The status `queryServer` derives from the reply: -1 for a '-' marker,
      otherwise the first byte minus '0' (so '/' also reads as -1). */
  function DecodeStatus(reply: string): (status: int)
    ensures status == -1 <==> FirstByte(reply) == '-' || FirstByte(reply) == '/'
    ensures status == 3 <==> FirstByte(reply) == '3'
    ensures status == 4 <==> FirstByte(reply) == '4'
    ensures '0' <= FirstByte(reply) <= '9' ==> status == FirstByte(reply) as int - '0' as int
  {
    if FirstByte(reply) == '-' then -1 else FirstByte(reply) as int - '0' as int
  }

  /** A request the handler can take without a wrap-around in `strlen(buffer) - 2`:
      the bare terminate code, or at least the type byte and the separator. */
  predicate Handleable(request: string)
  {
    |request| >= 2 || request == "0"
  }

  /** Reference definition of one iteration of the `child_thread` loop. On a
      hit the reply buffer is filled from the cache (its earlier contents never
      survive, see `CacheModel.RetrievedOnHit`); on a miss the raw request is
      forwarded and the backend's reply, status prefix included, is what gets
      cached and sent. */
  function Step(s: CacheState, request: string, backend: Backend): (r: (Action, CacheState))
    requires Valid(s) && Handleable(request)
    ensures Valid(r.1)
    ensures MessageType(request) == 0 ==> r == (Close, s)
    ensures r.0.Close? ==> r.1 == s
    ensures r.1 != s ==> backend.Replied? && r.0 == Send(backend.reply)
  {
    var typ := MessageType(request);
    if typ == 0 then (Close, s)
    else
      var key := Key(request);
      if Exists(s, typ, key) then (Send(Retrieved(s, key, typ, "")), s)
      else match backend
        case Unreachable => (Close, s)
        case Replied(reply) =>
          var status := DecodeStatus(reply);
          if status == 3 then (Send(reply), Updated(s, key, reply, typ))
          else if status == -1 then (Close, s)
          else (Send(reply), s)
  }

  /** Reference definition of the whole loop over the requests of one
      connection; `backend[i]` is what the backend would answer to request i. */
  function Run(s: CacheState, requests: seq<string>, backend: seq<Backend>): (r: Session)
    requires Valid(s) && |backend| == |requests|
    requires forall i :: 0 <= i < |requests| ==> Handleable(requests[i])
    ensures Valid(r.cache)
    ensures |r.sent| <= |requests|
    decreases |requests|
  {
    if requests == [] then Session([], false, s)
    else
      var (action, s') := Step(s, requests[0], backend[0]);
      if action.Close? then Session([], true, s')
      else
        var rest := Run(s', requests[1..], backend[1..]);
        Session([action.reply] + rest.sent, rest.closed, rest.cache)
  }

  /** Type 0 ends the session before anything is looked up, sent or cached. */
  lemma TerminateClosesSilently(s: CacheState, request: string, backend: Backend)
    requires Valid(s) && Handleable(request) && MessageType(request) == 0
    ensures Step(s, request, backend) == (Close, s)
  {
  }

  /** On a cache hit the backend is not consulted: its answer cannot change
      the outcome, the cache is left as it is, and the reply is the value
      paired with the key in some slot. */
  lemma HitSkipsBackend(s: CacheState, request: string, b1: Backend, b2: Backend)
    requires Valid(s) && Handleable(request) && MessageType(request) != 0
    requires Exists(s, MessageType(request), Key(request))
    ensures Step(s, request, b1) == Step(s, request, b2)
    ensures Step(s, request, b1).1 == s && Step(s, request, b1).0.Send?
    ensures MessageType(request) == 1 ==>
              exists j :: 0 <= j < Slots && s.hosts[j] == Key(request) && Step(s, request, b1).0.reply == s.ips[j]
    ensures MessageType(request) == 2 ==>
              exists j :: 0 <= j < Slots && s.ips[j] == Key(request) && Step(s, request, b1).0.reply == s.hosts[j]
  {
  }

  /** The cache changes only on a miss answered with status 3, and then by
      exactly one `updateCache` of the key with the whole reply. */
  lemma CacheChangesOnlyOnFound(s: CacheState, request: string, backend: Backend)
    requires Valid(s) && Handleable(request)
    ensures var typ := MessageType(request);
            Step(s, request, backend).1
            == if typ != 0 && !Exists(s, typ, Key(request)) && backend.Replied? && DecodeStatus(backend.reply) == 3
               then Updated(s, Key(request), backend.reply, typ)
               else s
  {
  }

  /** A miss that finds the backend unreachable or failing ends the session
      without a reply and without touching the cache. */
  lemma BackendDownCloses(s: CacheState, request: string, backend: Backend)
    requires Valid(s) && Handleable(request) && MessageType(request) != 0
    requires !Exists(s, MessageType(request), Key(request))
    requires backend.Unreachable? || DecodeStatus(backend.reply) == -1
    ensures Step(s, request, backend) == (Close, s)
  {
  }

  /** Any other backend status is forwarded verbatim, uncached. */
  lemma OtherStatusForwarded(s: CacheState, request: string, reply: string)
    requires Valid(s) && Handleable(request) && MessageType(request) != 0
    requires !Exists(s, MessageType(request), Key(request))
    requires DecodeStatus(reply) != 3 && DecodeStatus(reply) != -1
    ensures Step(s, request, Replied(reply)) == (Send(reply), s)
  {
  }

  /** A lookup answered with status 3 is sent as received and, asked again,
      is served from the cache with the same bytes whatever the backend would say. */
  lemma RepeatServedFromCache(s: CacheState, request: string, reply: string, later: Backend)
    requires Valid(s) && Handleable(request) && MessageType(request) in {1, 2}
    requires !Exists(s, MessageType(request), Key(request)) && DecodeStatus(reply) == 3
    ensures var (first, s') := Step(s, request, Replied(reply));
            first == Send(reply) && Valid(s') && Step(s', request, later) == (Send(reply), s')
  {
  }

  /** A closed session ignores whatever the client would have sent afterwards. */
  lemma {:induction false} RunStopsAtClose(s: CacheState, requests: seq<string>, backend: seq<Backend>,
                                           more: seq<string>, moreBackend: seq<Backend>)
    requires Valid(s) && |backend| == |requests| && |moreBackend| == |more|
    requires forall i :: 0 <= i < |requests| ==> Handleable(requests[i])
    requires forall i :: 0 <= i < |more| ==> Handleable(more[i])
    requires Run(s, requests, backend).closed
    ensures forall i :: 0 <= i < |requests + more| ==> Handleable((requests + more)[i])
    ensures Run(s, requests + more, backend + moreBackend) == Run(s, requests, backend)
    decreases |requests|
  {
    assert (requests + more)[0] == requests[0] && (backend + moreBackend)[0] == backend[0];
    var (action, s') := Step(s, requests[0], backend[0]);
    if action.Send? {
      assert (requests + more)[1..] == requests[1..] + more;
      assert (backend + moreBackend)[1..] == backend[1..] + moreBackend;
      RunStopsAtClose(s', requests[1..], backend[1..], more, moreBackend);
    }
  }

  /** One reply per request until the session closes; a closed session has
      left at least its last request unanswered. */
  lemma {:induction false} RunRepliesOncePerRequest(s: CacheState, requests: seq<string>, backend: seq<Backend>)
    requires Valid(s) && |backend| == |requests|
    requires forall i :: 0 <= i < |requests| ==> Handleable(requests[i])
    ensures Valid(Run(s, requests, backend).cache)
    ensures !Run(s, requests, backend).closed ==> |Run(s, requests, backend).sent| == |requests|
    ensures Run(s, requests, backend).closed ==> |Run(s, requests, backend).sent| < |requests|
    decreases |requests|
  {
    if requests != [] {
      var (action, s') := Step(s, requests[0], backend[0]);
      if action.Send? {
        RunRepliesOncePerRequest(s', requests[1..], backend[1..]);
      }
    }
  }

  /** At start-up every slot holds "", so an empty key is a hit and the
      client gets an empty reply without the backend being asked. */
  lemma EmptyKeyHitsFreshCache(backend: Backend)
    ensures Step(Empty, "1#", backend) == (Send(""), Empty)
    ensures Step(Empty, "2#", backend) == (Send(""), Empty)
  {
  }

  /** The stored address of a forward lookup carries the backend's "3#"
      prefix, so asking for the plain address in reverse misses the cache. */
  lemma ForwardEntryMissesReverse(s: CacheState, name: string, address: string)
    requires Valid(s) && !Exists(s, 1, name) && address !in s.ips
    ensures var s' := Step(s, "1#" + name, Replied("3#" + address)).1;
            Valid(s') && s' == Updated(s, name, "3#" + address, 1) && !Exists(s', 2, address)
  {
  }

  /** Two reverse lookups answered with the same name leave that name in two
      slots: names are not kept unique across entries. */
  lemma DuplicateNamesReachable()
    ensures var s1 := Step(Empty, "2#10.0.0.1", Replied("3#host")).1;
            var s2 := Step(s1, "2#10.0.0.2", Replied("3#host")).1;
            Valid(s2) && s2.hosts[0] == "3#host" && s2.hosts[1] == "3#host"
  {
  }

  /** The loop of `retrieveQuery` over one pair of columns: every matching slot
      overwrites the reply, so the last match wins. */
  method CopyLastMatch(keys: array<string>, values: array<string>, key: string, reply: string)
    returns (r: string)
    requires keys.Length == values.Length
    ensures r == ValueAtLastMatch(keys[..], values[..], key, reply)
  {
    r := reply;
    for i := 0 to keys.Length
      invariant r == ValueAtLastMatch(keys[..i], values[..i], key, reply)
    {
      assert keys[..i + 1][..i] == keys[..i];
      if keys[i] == key {
        r := values[i];
      } else {
        assert values[..i + 1][..i] == values[..i];
        assert forall j :: 0 <= j < i ==> values[..i + 1][j] == values[..i][j];
      }
    }
    assert keys[..keys.Length] == keys[..] && values[..values.Length] == values[..];
  }

  class Cache {
    const hosts: array<string>
    const ips: array<string>
    var idx: int

    ghost predicate Valid()
      reads this
    {
      hosts.Length == Slots && ips.Length == Slots && hosts != ips && 0 <= idx < Slots
    }

    /** The cache's contents as a value. */
    function State(): (s: CacheState)
      reads this, hosts, ips
      requires Valid()
      ensures CacheModel.Valid(s)
    {
      CacheState(hosts[..], ips[..], idx)
    }

    /** Process start: zero-filled slots, cursor 0. */
    constructor ()
      ensures Valid() && State() == Empty
    {
      hosts := new string[Slots](_ => "");
      ips := new string[Slots](_ => "");
      idx := 0;
      new;
      assert hosts[..] == ["", "", ""] && ips[..] == ["", "", ""];
    }

    /** `updateCache` */
    method UpdateCache(key: string, message: string, status: int)
      requires Valid()
      modifies this, hosts, ips
      ensures Valid()
      ensures State() == Updated(old(State()), key, message, status)
    {
      if status == 1 {
        hosts[idx] := key;
        ips[idx] := message;
      } else if status == 2 {
        hosts[idx] := message;
        ips[idx] := key;
      }
      idx := (idx + 1) % Slots;
    }

    /** `retrieveQuery`: the new contents of the `reply` buffer. */
    method RetrieveQuery(key: string, reply: string, status: int) returns (r: string)
      requires Valid()
      ensures r == Retrieved(State(), key, status, reply)
    {
      r := reply;
      if status == 1 {
        r := CopyLastMatch(hosts, ips, key, reply);
      } else if status == 2 {
        r := CopyLastMatch(ips, hosts, key, reply);
      }
    }

    /** One iteration of the `child_thread` loop. */
    method HandleRequest(request: string, backend: Backend) returns (action: Action)
      requires Valid() && Handleable(request)
      modifies this, hosts, ips
      ensures Valid()
      ensures (action, State()) == Step(old(State()), request, backend)
    {
      var typ := MessageType(request);
      if typ == 0 {
        return Close;
      }
      var key := Key(request);
      var hit := Exists(State(), typ, key);
      if hit {
        var reply := RetrieveQuery(key, "", typ);
        return Send(reply);
      }
      var status: int, reply: string;
      match backend {
        case Unreachable =>
          status := -1;
          reply := "";
        case Replied(bytes) =>
          reply := bytes;
          status := DecodeStatus(reply);
      }
      if status == 3 {
        UpdateCache(key, reply, typ);
        action := Send(reply);
      } else if status == -1 {
        action := Close;
      } else {
        action := Send(reply);
      }
    }

    /** The `child_thread` loop over the requests of one connection. */
    method Serve(requests: seq<string>, backend: seq<Backend>) returns (sent: seq<string>, closed: bool)
      requires Valid() && |backend| == |requests|
      requires forall i :: 0 <= i < |requests| ==> Handleable(requests[i])
      modifies this, hosts, ips
      ensures Valid()
      ensures Session(sent, closed, State()) == Run(old(State()), requests, backend)
    {
      sent, closed := [], false;
      var i := 0;
      while i < |requests|
        invariant 0 <= i <= |requests| && Valid()
        invariant var rest := Run(State(), requests[i..], backend[i..]);
                  Run(old(State()), requests, backend) == Session(sent + rest.sent, rest.closed, rest.cache)
      {
        assert requests[i..][1..] == requests[i + 1..] && backend[i..][1..] == backend[i + 1..];
        var action := HandleRequest(requests[i], backend[i]);
        if action.Close? {
          closed := true;
          return;
        }
        sent := sent + [action.reply];
        i := i + 1;
      }
    }
  }
}
