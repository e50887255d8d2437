/**
 * The iterative resolver `resolveDomainName` of dns.go: a stack of name servers still to ask, a
 * set of servers already scheduled, and per response the choice between an answer, the glue
 * addresses of a referral, and a nested resolution of the first authority's name.
 *
 * The network is a function from a server and a request to what comes back; the unbounded
 * loop and recursion of the source are bounded by `fuel`.
 */
module Resolver {
  import opened Bytes
  import opened Outcomes
  import opened DomainNames
  import opened Messages
  import opened Stacks

  /** A server address: the dotted quad `a.b.c.d`, or the empty string. */
  datatype Host = Dotted(a: byte, b: byte, c: byte, d: byte) | Blank

  /** The root server every resolution starts from, 192.203.230.10. */
  const Root: Host := Dotted(192, 203, 230, 10)

  /** The size of the buffer a response is read into. */
  const PacketSize: nat := 512

  /** What one UDP exchange with a server gives: the datagram read back, or a failure to dial, write or read. */
  datatype Exchange = Received(datagram: seq<byte>) | Failed

  /** The network: the exchange that sending `message` to a server produces. */
  type Network = (Host, seq<byte>) -> Exchange

  // ---------------------------------------------------------------------------------------
  // One response
  // ---------------------------------------------------------------------------------------

  /** The query sent for `name`: id 22, no flags, one question of type A and class IN. */
  function QueryFor(name: seq<byte>): (q: Query)
    ensures q.body.question == name && q.header.id == 22
  {
    Query(Header(22, 0, 1, 0, 0, 0), Body(name, TypeA, ClassIN))
  }

  /** The 512-byte buffer a datagram is read into: its bytes first, zeros after, the excess cut off. */
  function ReceiveBuffer(datagram: seq<byte>): (buffer: seq<byte>)
    ensures |buffer| == PacketSize
    ensures forall i | 0 <= i < PacketSize :: buffer[i] == if i < |datagram| then datagram[i] else 0
  {
    if |datagram| >= PacketSize then datagram[..PacketSize]
    else datagram + seq(PacketSize - |datagram|, i => 0)
  }

  /** The address a record's first four rdata bytes spell. */
  function HostOf(r: Resource): (h: Host)
    requires |r.rData| >= 4
    ensures h.Dotted? && [h.a, h.b, h.c, h.d] == r.rData[..4]
  {
    Dotted(r.rData[0], r.rData[1], r.rData[2], r.rData[3])
  }

  /** The answer the resolver returns from a record: its address, or a failure when the rdata is too short to index. */
  function AddressOf(r: Resource): (a: Result<Host>)
    ensures a.Ok? <==> |r.rData| >= 4
    ensures a.Ok? ==> a.value.Dotted? && [a.value.a, a.value.b, a.value.c, a.value.d] == r.rData[..4]
  {
    if |r.rData| < 4 then Err(OutOfBounds) else Ok(HostOf(r))
  }

  /** A record whose rdata length agrees with its rdata: every decoded record that is not NS/IN. */
  predicate Sized(r: Resource)
  {
    !(r.body.queryType == TypeNS && r.body.queryClass == ClassIN) ==> |r.rData| == r.rdLength
  }

  function Prepended(head: seq<Resource>, tail: Result<(seq<Resource>, nat)>): (r: Result<(seq<Resource>, nat)>)
    ensures r.Ok? <==> tail.Ok?
    ensures r.Ok? ==> r.value == (head + tail.value.0, tail.value.1)
    ensures r.Err? ==> r == tail
  {
    match tail
    case Ok((records, end)) => Ok((head + records, end))
    case Err(e) => Err(e)
  }

  /**
   * The `count` records of one section, decoded one after the other from `position`, and the
   * position after the last.
   */
  function Section(buffer: seq<byte>, position: nat, count: nat): (r: Result<(seq<Resource>, nat)>)
    ensures r.Ok? ==> |r.value.0| == count && position <= r.value.1
    ensures r.Ok? ==> forall i | 0 <= i < count :: Sized(r.value.0[i])
    decreases count
  {
    if count == 0 then Ok(([], position))
    else
      match ResourceAt(buffer, position)
      case Err(e) => Err(e)
      case Ok((record, size)) => Prepended([record], Section(buffer, position + size, count - 1))
  }

  /** Prepending in two steps is prepending the concatenation. */
  lemma PrependedTwice(a: seq<Resource>, b: seq<Resource>, tail: Result<(seq<Resource>, nat)>)
    ensures Prepended(a, Prepended(b, tail)) == Prepended(a + b, tail)
  {
    if tail.Ok? {
      assert a + (b + tail.value.0) == (a + b) + tail.value.0;
    }
  }

  lemma PrependedNothing(tail: Result<(seq<Resource>, nat)>)
    ensures Prepended([], tail) == tail
  {
    if tail.Ok? {
      assert [] + tail.value.0 == tail.value.0;
    }
  }

  /** One record of a section: the first record decoded, then the rest. */
  lemma SectionStep(buffer: seq<byte>, position: nat, count: nat, record: Result<(Resource, nat)>)
    requires count > 0 && record == ResourceAt(buffer, position)
    ensures record.Err? ==> Section(buffer, position, count) == Err(record.error)
    ensures record.Ok? ==>
              Section(buffer, position, count) == Prepended([record.value.0], Section(buffer, position + record.value.1, count - 1))
  {
  }

  /** The loops that fill `authorityRecords` and `additionalRecords`. */
  method DecodeSection(buffer: seq<byte>, start: nat, count: nat) returns (r: Result<(seq<Resource>, nat)>)
    ensures r == Section(buffer, start, count)
  {
    var records: seq<Resource> := [];
    var position: nat := start;
    PrependedNothing(Section(buffer, start, count));
    for i := 0 to count
      invariant Section(buffer, start, count) == Prepended(records, Section(buffer, position, count - i))
    {
      var record := DecodeResource(buffer, position);
      SectionStep(buffer, position, count - i, record);
      if record.Err? {
        return Err(record.error);
      }
      PrependedTwice(records, [record.value.0], Section(buffer, position + record.value.1, count - i - 1));
      records := records + [record.value.0];
      position := position + record.value.1;
    }
    assert Section(buffer, position, 0) == Ok(([], position));
    assert records + [] == records;
    return Ok((records, position));
  }

  /** What the resolver does with one response: stop with a result, or go on with a referral. */
  datatype Verdict = Final(result: Result<Host>) | Referral(authorities: seq<Resource>, additionals: seq<Resource>)

  /**
   * One response to `query`, read from `buffer`: the header is checked, the echoed question must
   * be the one asked (otherwise the resolution ends with the empty string), the first answer, if
   * there is one, gives the address; otherwise the authority and additional sections are decoded
   * for the referral.
   */
  function Examine(buffer: seq<byte>, query: Query): (v: Verdict)
    ensures |buffer| >= 12 && ReadU16(buffer, 0) != query.header.id ==> v == Final(Err(IdMismatch))
    ensures v.Referral? ==> |buffer| >= 12 && ReadU16(buffer, 6) == 0
                            && |v.authorities| == ReadU16(buffer, 8) && |v.additionals| == ReadU16(buffer, 10)
    ensures v.Referral? ==> forall i | 0 <= i < |v.additionals| :: Sized(v.additionals[i])
  {
    match DecodeHeader(buffer, 0)
    case Err(e) => Final(Err(e))
    case Ok((header, headerSize)) =>
      match CheckHeader(header, query)
      case Fail(e) => Final(Err(e))
      case Pass =>
        match BodyAt(buffer, 12)
        case Err(e) => Final(Err(e))
        case Ok((body, bodySize)) =>
          if body.question != query.body.question then Final(Ok(Blank))
          else
            var position := headerSize + bodySize;
            if header.anCount > 0 then
              match ResourceAt(buffer, position)
              case Err(e) => Final(Err(e))
              case Ok((answer, _)) => Final(AddressOf(answer))
            else
              match Section(buffer, position, header.nsCount)
              case Err(e) => Final(Err(e))
              case Ok((authorities, next)) =>
                match Section(buffer, next, header.arCount)
                case Err(e) => Final(Err(e))
                case Ok((additionals, _)) => Referral(authorities, additionals)
  }

  /** The body of the resolver's loop from the header to the additional section. */
  method ExamineResponse(buffer: seq<byte>, query: Query) returns (v: Verdict)
    ensures v == Examine(buffer, query)
  {
    var decoded := DecodeHeader(buffer, 0);
    if decoded.Err? {
      return Final(Err(decoded.error));
    }
    var header := decoded.value.0;
    var position := decoded.value.1;
    var check := CheckHeader(header, query);
    if check.Fail? {
      return Final(Err(check.error));
    }
    var body := DecodeBody(buffer, 12);
    if body.Err? {
      return Final(Err(body.error));
    }
    if body.value.0.question != query.body.question {
      return Final(Ok(Blank));
    }
    position := position + body.value.1;
    if header.anCount > 0 {
      var answer := DecodeResource(buffer, position);
      if answer.Err? {
        return Final(Err(answer.error));
      }
      return Final(AddressOf(answer.value.0));
    }
    var authorities := DecodeSection(buffer, position, header.nsCount);
    if authorities.Err? {
      return Final(Err(authorities.error));
    }
    position := authorities.value.1;
    var additionals := DecodeSection(buffer, position, header.arCount);
    if additionals.Err? {
      return Final(Err(additionals.error));
    }
    return Referral(authorities.value.0, additionals.value.0);
  }

  // ---------------------------------------------------------------------------------------
  // Glue
  // ---------------------------------------------------------------------------------------

  /** An additional record the resolver takes as a server address: type A, class IN, four bytes of rdata. */
  predicate IsGlue(r: Resource)
  {
    r.body.queryType == TypeA && r.body.queryClass == ClassIN && r.rdLength == 4
  }

  /** The servers pushed for a referral's additional records, in order, and the visited set after them. */
  datatype Glue = Glue(pushed: seq<Host>, visited: set<Host>)

  /**
   * Glue handling: each glue record whose address is not yet visited is pushed and marked visited
   * at once; everything else is skipped.
   */
  function GlueFrom(additionals: seq<Resource>, visited: set<Host>): Glue
    requires forall i | 0 <= i < |additionals| :: Sized(additionals[i])
  {
    if additionals == [] then Glue([], visited)
    else
      var ar := additionals[0];
      assert Sized(ar);
      if IsGlue(ar) && HostOf(ar) !in visited then
        var rest := GlueFrom(additionals[1..], visited + {HostOf(ar)});
        Glue([HostOf(ar)] + rest.pushed, rest.visited)
      else GlueFrom(additionals[1..], visited)
  }

  /** The loop over `additionalRecords`: pushes the glue addresses and returns the new visited set. */
  method PushGlue(stack: Stack<Host>, visited: set<Host>, additionals: seq<Resource>) returns (marked: set<Host>)
    requires forall i | 0 <= i < |additionals| :: Sized(additionals[i])
    modifies stack
    ensures stack.items == old(stack.items) + GlueFrom(additionals, visited).pushed
    ensures marked == GlueFrom(additionals, visited).visited
  {
    marked := visited;
    for i := 0 to |additionals|
      invariant old(stack.items) + GlueFrom(additionals, visited).pushed
                == stack.items + GlueFrom(additionals[i..], marked).pushed
      invariant GlueFrom(additionals, visited).visited == GlueFrom(additionals[i..], marked).visited
    {
      assert additionals[i..][1..] == additionals[i + 1..];
      var ar := additionals[i];
      if ar.body.queryType == TypeA && ar.body.queryClass == ClassIN && ar.rdLength == 4 {
        var newIP := Dotted(ar.rData[0], ar.rData[1], ar.rData[2], ar.rData[3]);
        if newIP !in marked {
          stack.Push(newIP);
          marked := marked + {newIP};
        }
      }
    }
  }

  /** A glue push never repeats an address and never pushes one already visited; every pushed address ends up visited. */
  lemma {:induction false} GlueFresh(additionals: seq<Resource>, visited: set<Host>)
    requires forall i | 0 <= i < |additionals| :: Sized(additionals[i])
    ensures var g := GlueFrom(additionals, visited);
            (forall i, j | 0 <= i < j < |g.pushed| :: g.pushed[i] != g.pushed[j])
            && (forall i | 0 <= i < |g.pushed| :: g.pushed[i] !in visited && g.pushed[i] in g.visited)
            && visited <= g.visited
    decreases |additionals|
  {
    if additionals != [] {
      var ar := additionals[0];
      if IsGlue(ar) && HostOf(ar) !in visited {
        GlueFresh(additionals[1..], visited + {HostOf(ar)});
        var rest := GlueFrom(additionals[1..], visited + {HostOf(ar)});
        var g := GlueFrom(additionals, visited);
        assert g.pushed == [HostOf(ar)] + rest.pushed;
        forall i, j | 0 <= i < j < |g.pushed| ensures g.pushed[i] != g.pushed[j] {
          if i == 0 {
            assert g.pushed[j] == rest.pushed[j - 1];
          } else {
            assert g.pushed[i] == rest.pushed[i - 1] && g.pushed[j] == rest.pushed[j - 1];
          }
        }
        forall i | 0 <= i < |g.pushed| ensures g.pushed[i] !in visited && g.pushed[i] in g.visited {
          if i > 0 {
            assert g.pushed[i] == rest.pushed[i - 1];
          }
        }
      } else {
        GlueFresh(additionals[1..], visited);
      }
    }
  }

  /** The addresses of all glue records among `additionals`, visited or not. */
  function GlueHosts(additionals: seq<Resource>): set<Host>
    requires forall i | 0 <= i < |additionals| :: Sized(additionals[i])
  {
    if additionals == [] then {}
    else
      var ar := additionals[0];
      assert Sized(ar);
      (if IsGlue(ar) then {HostOf(ar)} else {}) + GlueHosts(additionals[1..])
  }

  /**
   * The visited set after a glue push is the old one plus exactly the addresses of the glue
   * records: every glue address is visited afterwards, and nothing else was added.
   */
  lemma {:induction false} GlueVisited(additionals: seq<Resource>, visited: set<Host>)
    requires forall i | 0 <= i < |additionals| :: Sized(additionals[i])
    ensures GlueFrom(additionals, visited).visited == visited + GlueHosts(additionals)
    decreases |additionals|
  {
    if additionals != [] {
      var ar := additionals[0];
      assert Sized(ar);
      if IsGlue(ar) && HostOf(ar) !in visited {
        GlueVisited(additionals[1..], visited + {HostOf(ar)});
      } else {
        GlueVisited(additionals[1..], visited);
      }
    }
  }

  /**
   * Counting form of the glue rule: an address is pushed at most once, only when it was not
   * visited, and whatever is pushed is visited afterwards.
   */
  lemma {:induction false} GlueCount(additionals: seq<Resource>, visited: set<Host>, h: Host)
    requires forall i | 0 <= i < |additionals| :: Sized(additionals[i])
    ensures var g := GlueFrom(additionals, visited);
            multiset(g.pushed)[h] + (if h in g.visited then 0 else 1) <= (if h in visited then 0 else 1)
    decreases |additionals|
  {
    if additionals != [] {
      var ar := additionals[0];
      assert Sized(ar);
      if IsGlue(ar) && HostOf(ar) !in visited {
        GlueCount(additionals[1..], visited + {HostOf(ar)}, h);
        var rest := GlueFrom(additionals[1..], visited + {HostOf(ar)});
        assert multiset(GlueFrom(additionals, visited).pushed) == multiset{HostOf(ar)} + multiset(rest.pushed);
      } else {
        GlueCount(additionals[1..], visited, h);
      }
    }
  }

  // ---------------------------------------------------------------------------------------
  // The walk
  // ---------------------------------------------------------------------------------------

  /**
   * How one level of resolution ends: its result, the servers it sent the query to in order,
   * and the servers it pushed as fallback after a nested resolution.
   */
  datatype Trace = Trace(result: Result<Host>, queried: seq<Host>, fallbacks: seq<Host>)

  function Asked(ip: Host, t: Trace): Trace
  {
    Trace(t.result, [ip] + t.queried, t.fallbacks)
  }

  function FellBack(ns: Host, t: Trace): Trace
  {
    Trace(t.result, t.queried, [ns] + t.fallbacks)
  }

  /**
   * The loop `for len(stack) > 0` from a given stack and visited set, with `fuel` iterations
   * left: pop a server, send the query, and act on the verdict.
   */
  function Walk(query: Query, message: seq<byte>, network: Network, stack: seq<Host>, visited: set<Host>, fuel: nat): Trace
    decreases fuel, 2
  {
    if stack == [] then Trace(Err(Exhausted), [], [])
    else if fuel == 0 then Trace(Err(OutOfFuel), [], [])
    else
      var ip := stack[|stack| - 1];
      Asked(ip, Respond(query, message, network, stack[..|stack| - 1], visited, fuel - 1, network(ip, message)))
  }

  /** One iteration after the pop, with `next` iterations left after it: what the exchange with the popped server leads to. */
  function Respond(query: Query, message: seq<byte>, network: Network, rest: seq<Host>, visited: set<Host>,
                   next: nat, exchange: Exchange): Trace
    decreases next + 1, 1
  {
    match exchange
    case Failed => Trace(Err(TransportError), [], [])
    case Received(datagram) =>
      match Examine(ReceiveBuffer(datagram), query)
      case Final(result) => Trace(result, [], [])
      case Referral(authorities, additionals) => FollowUp(query, message, network, rest, visited, next, authorities, additionals)
  }

  /**
   * A referral: its glue is pushed; when that leaves the stack empty the first authority's rdata
   * is resolved as a name and the server found is pushed without being marked visited.
   */
  function FollowUp(query: Query, message: seq<byte>, network: Network, rest: seq<Host>, visited: set<Host>,
                    next: nat, authorities: seq<Resource>, additionals: seq<Resource>): Trace
    requires forall i | 0 <= i < |additionals| :: Sized(additionals[i])
    decreases next + 1, 0
  {
    var glue := GlueFrom(additionals, visited);
    if rest + glue.pushed != [] then
      Walk(query, message, network, rest + glue.pushed, glue.visited, next)
    else if authorities == [] then Trace(Err(OutOfBounds), [], [])
    else
      match Resolution(authorities[0].rData, network, next).result
      case Err(e) => Trace(Err(e), [], [])
      case Ok(nameServer) => FellBack(nameServer, Walk(query, message, network, [nameServer], glue.visited, next))
  }

  /** `resolveDomainName(name, _)`: the walk from the root server with the query for `name`. */
  function Resolution(name: seq<byte>, network: Network, fuel: nat): Trace
    decreases fuel, 3
  {
    Walk(QueryFor(name), QueryWire(QueryFor(name)), network, [Root], {Root}, fuel)
  }

  /** One iteration of the walk: pop the last server and act on its exchange. */
  lemma WalkStep(query: Query, message: seq<byte>, network: Network, stack: seq<Host>, visited: set<Host>, fuel: nat, next: nat)
    requires stack != [] && fuel == next + 1
    ensures Walk(query, message, network, stack, visited, fuel)
            == Asked(stack[|stack| - 1],
                     Respond(query, message, network, stack[..|stack| - 1], visited, next, network(stack[|stack| - 1], message)))
  {
    var ip := stack[|stack| - 1];
    var t := Respond(query, message, network, stack[..|stack| - 1], visited, next, network(ip, message));
    assert Walk(query, message, network, stack, visited, next + 1) == Asked(ip, t);
  }

  /** Whether the loop goes on after a referral, or the resolution ends with a result. */
  datatype Progress = Continue | Stop(result: Result<Host>)

  /** The end of the loop body: the glue push over `additionalRecords` and the fallback to the first authority. */
  method FollowReferral(query: Query, message: seq<byte>, network: Network, stack: Stack<Host>, visited: set<Host>,
                        next: nat, authorities: seq<Resource>, additionals: seq<Resource>)
    returns (marked: set<Host>, progress: Progress)
    requires forall i | 0 <= i < |additionals| :: Sized(additionals[i])
    modifies stack
    ensures progress.Stop? ==>
              progress.result == FollowUp(query, message, network, old(stack.items), visited, next, authorities, additionals).result
    ensures progress.Continue? ==>
              Walk(query, message, network, stack.items, marked, next).result
              == FollowUp(query, message, network, old(stack.items), visited, next, authorities, additionals).result
    ensures progress.Stop? ==> old(stack.items) + GlueFrom(additionals, visited).pushed == []
    ensures progress.Continue? ==> marked == GlueFrom(additionals, visited).visited
    ensures progress.Continue? ==>
              var pushed := old(stack.items) + GlueFrom(additionals, visited).pushed;
              if pushed != [] then stack.items == pushed
              else authorities != [] && Resolution(authorities[0].rData, network, next).result.Ok?
                   && stack.items == [Resolution(authorities[0].rData, network, next).result.value]
    decreases next + 1, 0
  {
    marked := PushGlue(stack, visited, additionals);
    if stack.items == [] {
      if authorities == [] {
        return marked, Stop(Err(OutOfBounds));
      }
      var nameServer := ResolveDomainName(authorities[0].rData, network, next);
      if nameServer.Err? {
        return marked, Stop(nameServer);
      }
      stack.Push(nameServer.value);
    }
    return marked, Continue;
  }

  /** `resolveDomainName`: the stack, the visited set and the loop over responses. */
  method ResolveDomainName(domainName: seq<byte>, network: Network, fuel: nat) returns (r: Result<Host>)
    ensures r == Resolution(domainName, network, fuel).result
    decreases fuel, 1
  {
    var query := QueryFor(domainName);
    var message := EncodeQuery(query);
    var visited: set<Host> := {Root};
    var stack := new Stack<Host>([Root]);
    var f: nat := fuel;
    ghost var goal := Resolution(domainName, network, fuel).result;
    while stack.items != []
      invariant f <= fuel
      invariant Walk(query, message, network, stack.items, visited, f).result == goal
      decreases f
    {
      if f == 0 {
        return Err(OutOfFuel);
      }
      var next: nat := f - 1;
      WalkStep(query, message, network, stack.items, visited, f, next);
      var popped := stack.Pop();
      var ip := popped.value;
      var exchange := network(ip, message);
      if exchange.Failed? {
        return Err(TransportError);
      }
      var buffer := ReceiveBuffer(exchange.datagram);
      var verdict := ExamineResponse(buffer, query);
      if verdict.Final? {
        return verdict.result;
      }
      var marked, progress := FollowReferral(query, message, network, stack, visited, next, verdict.authorities, verdict.additionals);
      if progress.Stop? {
        return progress.result;
      }
      visited := marked;
      f := next;
    }
    return Err(Exhausted);
  }

  // ---------------------------------------------------------------------------------------
  // What the walk promises
  // ---------------------------------------------------------------------------------------

  lemma SplitLast(s: seq<Host>)
    requires s != []
    ensures s == s[..|s| - 1] + [s[|s| - 1]]
  {
  }

  /**
   * Within one level of resolution a server is queried at most as often as it sits on the
   * starting stack, plus once if it was not yet visited, plus once per fallback push of it:
   * glue never schedules a server twice.
   */
  lemma {:induction false} WalkQueries(query: Query, message: seq<byte>, network: Network, stack: seq<Host>,
                                       visited: set<Host>, fuel: nat, h: Host)
    ensures var t := Walk(query, message, network, stack, visited, fuel);
            multiset(t.queried)[h] <= multiset(stack)[h] + multiset(t.fallbacks)[h] + (if h in visited then 0 else 1)
    decreases fuel, 2
  {
    if stack != [] && fuel > 0 {
      var ip := stack[|stack| - 1];
      var rest := stack[..|stack| - 1];
      var next: nat := fuel - 1;
      WalkStep(query, message, network, stack, visited, fuel, next);
      RespondQueries(query, message, network, rest, visited, next, network(ip, message), h);
      var inner := Respond(query, message, network, rest, visited, next, network(ip, message));
      var t := Walk(query, message, network, stack, visited, fuel);
      assert t.queried == [ip] + inner.queried && t.fallbacks == inner.fallbacks;
      SplitLast(stack);
      assert multiset(stack)[h] == multiset(rest)[h] + multiset([ip])[h];
      assert multiset(t.queried)[h] == multiset([ip])[h] + multiset(inner.queried)[h];
    } else {
      assert Walk(query, message, network, stack, visited, fuel).queried == [];
    }
  }

  /** The same bound for one iteration after the pop, counted against the rest of the stack. */
  lemma {:induction false} RespondQueries(query: Query, message: seq<byte>, network: Network, rest: seq<Host>,
                                          visited: set<Host>, next: nat, exchange: Exchange, h: Host)
    ensures var t := Respond(query, message, network, rest, visited, next, exchange);
            multiset(t.queried)[h] <= multiset(rest)[h] + multiset(t.fallbacks)[h] + (if h in visited then 0 else 1)
    decreases next + 1, 1
  {
    if exchange.Received? {
      var v := Examine(ReceiveBuffer(exchange.datagram), query);
      if v.Referral? {
        FollowUpQueries(query, message, network, rest, visited, next, v.authorities, v.additionals, h);
      }
    }
  }

  /** The same bound for a referral: the glue rule pays for every server it schedules. */
  lemma {:induction false} FollowUpQueries(query: Query, message: seq<byte>, network: Network, rest: seq<Host>,
                                           visited: set<Host>, next: nat, authorities: seq<Resource>,
                                           additionals: seq<Resource>, h: Host)
    requires forall i | 0 <= i < |additionals| :: Sized(additionals[i])
    ensures var t := FollowUp(query, message, network, rest, visited, next, authorities, additionals);
            multiset(t.queried)[h] <= multiset(rest)[h] + multiset(t.fallbacks)[h] + (if h in visited then 0 else 1)
    decreases next + 1, 0
  {
    var glue := GlueFrom(additionals, visited);
    GlueCount(additionals, visited, h);
    if rest + glue.pushed != [] {
      WalkQueries(query, message, network, rest + glue.pushed, glue.visited, next, h);
    } else if authorities != [] {
      var nested := Resolution(authorities[0].rData, network, next).result;
      if nested.Ok? {
        WalkQueries(query, message, network, [nested.value], glue.visited, next, h);
      }
    }
  }

  /**
   * A resolution queries each server at most once, plus once for every time it was pushed as
   * the fallback found by a nested resolution; with no fallback pushes every server is queried
   * at most once.
   */
  lemma ResolutionQueries(name: seq<byte>, network: Network, fuel: nat, h: Host)
    ensures var t := Resolution(name, network, fuel);
            multiset(t.queried)[h] <= 1 + multiset(t.fallbacks)[h]
    ensures var t := Resolution(name, network, fuel);
            h !in t.fallbacks ==> multiset(t.queried)[h] <= 1
  {
    WalkQueries(QueryFor(name), QueryWire(QueryFor(name)), network, [Root], {Root}, fuel, h);
  }

  /**
   * A referral whose glue leaves the stack empty falls back to the server found for the first
   * authority's name. That server is pushed but not marked visited: the walk goes on with the
   * visited set the glue left, which is the old one plus the glue addresses.
   */
  lemma FallbackNotVisited(query: Query, message: seq<byte>, network: Network, visited: set<Host>, next: nat,
                           authorities: seq<Resource>, additionals: seq<Resource>, ns: Host)
    requires forall i | 0 <= i < |additionals| :: Sized(additionals[i])
    requires GlueFrom(additionals, visited).pushed == [] && authorities != []
    requires Resolution(authorities[0].rData, network, next).result == Ok(ns)
    ensures FollowUp(query, message, network, [], visited, next, authorities, additionals)
            == FellBack(ns, Walk(query, message, network, [ns], visited + GlueHosts(additionals), next))
  {
    GlueVisited(additionals, visited);
  }

  /** A response whose id is not the query's ends the resolution at once with an id mismatch. */
  lemma IdMismatchAborts(name: seq<byte>, network: Network, fuel: nat, datagram: seq<byte>)
    requires fuel > 0
    requires network(Root, QueryWire(QueryFor(name))) == Received(datagram)
    requires |datagram| >= 12 && ReadU16(datagram, 0) != 22
    ensures Resolution(name, network, fuel) == Trace(Err(IdMismatch), [Root], [])
  {
    var buffer := ReceiveBuffer(datagram);
    assert buffer[0] == datagram[0] && buffer[1] == datagram[1];
    assert Examine(buffer, QueryFor(name)) == Final(Err(IdMismatch));
    WalkStep(QueryFor(name), QueryWire(QueryFor(name)), network, [Root], {Root}, fuel, fuel - 1);
  }

  /**
   * The empty-string result comes exactly from a response that passes the header check and
   * echoes a question other than the one asked.
   */
  lemma BlankOnOtherQuestion(buffer: seq<byte>, query: Query)
    ensures Examine(buffer, query) == Final(Ok(Blank)) <==>
              && |buffer| >= 12
              && CheckHeader(DecodeHeader(buffer, 0).value.0, query) == Pass
              && BodyAt(buffer, 12).Ok?
              && BodyAt(buffer, 12).value.0.question != query.body.question
  {
  }

  /**
   * A response gives an address exactly when it passes the header check, echoes the question
   * asked, has an answer, and the first record after the question decodes with four bytes of
   * rdata; the address is that record's.
   */
  lemma ExamineAddress(buffer: seq<byte>, query: Query)
    ensures var v := Examine(buffer, query);
            (v.Final? && v.result.Ok? && v.result.value.Dotted?) <==>
              && |buffer| >= 12
              && CheckHeader(DecodeHeader(buffer, 0).value.0, query) == Pass
              && BodyAt(buffer, 12).Ok?
              && BodyAt(buffer, 12).value.0.question == query.body.question
              && ReadU16(buffer, 6) > 0
              && ResourceAt(buffer, 12 + BodyAt(buffer, 12).value.1).Ok?
              && |ResourceAt(buffer, 12 + BodyAt(buffer, 12).value.1).value.0.rData| >= 4
    ensures var v := Examine(buffer, query);
            v.Final? && v.result.Ok? && v.result.value.Dotted? ==>
              v.result == AddressOf(ResourceAt(buffer, 12 + BodyAt(buffer, 12).value.1).value.0)
  {
  }

  // ---------------------------------------------------------------------------------------
  // A direct answer, end to end
  // ---------------------------------------------------------------------------------------

  /** The header of a response with one question and one answer. */
  const AnswerHeader: Header := Header(22, 0x8180, 1, 1, 0, 0)

  /**
   * An answer record for the question at offset 12: a compression pointer to the question's
   * name, type A, class IN, a four-byte TTL, rdata length 4 and the address.
   */
  function AnswerWire(ttl: seq<byte>, ip: Host): (w: seq<byte>)
    requires |ttl| == 4 && ip.Dotted?
    ensures |w| == 16
  {
    [PointerTag, 12] + U16Bytes(TypeA) + U16Bytes(ClassIN) + ttl + U16Bytes(4) + [ip.a, ip.b, ip.c, ip.d]
  }

  /** A server's whole reply that answers the query for `name` with `ip`. */
  function DirectResponse(name: seq<byte>, ttl: seq<byte>, ip: Host): seq<byte>
    requires |ttl| == 4 && ip.Dotted?
  {
    EncodeHeader(AnswerHeader) + BodyWire(QueryFor(name).body) + AnswerWire(ttl, ip)
  }

  /** Where the three parts of a direct response sit in a buffer that starts with it. */
  lemma DirectLayout(name: seq<byte>, ttl: seq<byte>, ip: Host, buffer: seq<byte>)
    requires |ttl| == 4 && ip.Dotted?
    requires |DirectResponse(name, ttl, ip)| <= |buffer|
    requires buffer[..|DirectResponse(name, ttl, ip)|] == DirectResponse(name, ttl, ip)
    ensures var bw := BodyWire(QueryFor(name).body);
            && |DirectResponse(name, ttl, ip)| == 12 + |bw| + 16
            && buffer[0..12] == EncodeHeader(AnswerHeader)
            && buffer[12..12 + |bw|] == bw
            && buffer[12 + |bw|..12 + |bw| + 16] == AnswerWire(ttl, ip)
  {
    var resp := DirectResponse(name, ttl, ip);
    var bw := BodyWire(QueryFor(name).body);
    var hw := EncodeHeader(AnswerHeader);
    var aw := AnswerWire(ttl, ip);
    assert resp == hw + bw + aw;
    SliceWithin(buffer, 0, resp, 0, 12);
    SliceWithin(buffer, 0, resp, 12, 12 + |bw|);
    SliceWithin(buffer, 0, resp, 12 + |bw|, 12 + |bw| + 16);
    assert resp[0..12] == hw;
    assert resp[12..12 + |bw|] == bw;
    assert resp[12 + |bw|..12 + |bw| + 16] == aw;
  }

  /** The answer's owner is the pointer to offset 12, read as the question's name in two bytes. */
  lemma DirectOwner(name: seq<byte>, buffer: seq<byte>, position: nat)
    requires WellFormed(name)
    requires var bw := BodyWire(QueryFor(name).body);
             position == 12 + |bw| && position + 2 <= |buffer| && buffer[12..position] == bw
    requires buffer[position] == PointerTag && buffer[position + 1] == 12
    ensures NameAt(buffer, position) == Ok(Decoded(name, 2))
  {
    var labels := Split(name);
    var lw := LabelsWire(labels);
    BodyWireParts(QueryFor(name).body);
    SliceWithin(buffer, 12, BodyWire(QueryFor(name).body), 0, |lw|);
    assert buffer[12 + |lw|] == buffer[12..position][|lw|];
    ReadEncodedLabels(buffer, 12, buffer, {position, 12}, labels);
    JoinSplit(name);
    ReadBarePointer(buffer, position, buffer, {position}, 12);
    assert {position} + {12} == {position, 12};
    var empty: seq<seq<byte>> := [];
    assert empty + [name] == [name];
  }

  /** The fixed fields and the rdata of the answer: type A, class IN and the four address bytes. */
  lemma DirectRecord(name: seq<byte>, ttl: seq<byte>, ip: Host, buffer: seq<byte>, offset: nat)
    requires |ttl| == 4 && ip.Dotted?
    requires offset + 14 <= |buffer| < 0x1_0000
    requires buffer[offset..offset + 14] == AnswerWire(ttl, ip)[2..]
    ensures RecordAfter(buffer, offset, Decoded(name, 2)).Ok?
    ensures var (r, size) := RecordAfter(buffer, offset, Decoded(name, 2)).value;
            r.body == Body(name, TypeA, ClassIN) && r.rData == [ip.a, ip.b, ip.c, ip.d] && size == 16
  {
    var aw := AnswerWire(ttl, ip)[2..];
    assert aw == U16Bytes(TypeA) + U16Bytes(ClassIN) + ttl + U16Bytes(4) + [ip.a, ip.b, ip.c, ip.d];
    assert aw[0..2] == U16Bytes(TypeA) && aw[2..4] == U16Bytes(ClassIN);
    assert aw[8..10] == U16Bytes(4) && aw[10..14] == [ip.a, ip.b, ip.c, ip.d];
    SliceWithin(buffer, offset, aw, 0, 2);
    SliceWithin(buffer, offset, aw, 2, 4);
    SliceWithin(buffer, offset, aw, 8, 10);
    SliceWithin(buffer, offset, aw, 10, 14);
    U16RoundTrip(TypeA, buffer, offset);
    U16RoundTrip(ClassIN, buffer, offset + 2);
    U16RoundTrip(4, buffer, offset + 8);
  }

  /** The answer record of a direct response decodes to the address it carries. */
  lemma DirectAnswerRecord(name: seq<byte>, ttl: seq<byte>, ip: Host, buffer: seq<byte>, position: nat)
    requires WellFormed(name) && |ttl| == 4 && ip.Dotted?
    requires var bw := BodyWire(QueryFor(name).body);
             position == 12 + |bw| && position + 16 <= |buffer| < 0x1_0000 && buffer[12..position] == bw
    requires buffer[position..position + 16] == AnswerWire(ttl, ip)
    ensures ResourceAt(buffer, position).Ok? && AddressOf(ResourceAt(buffer, position).value.0) == Ok(ip)
  {
    var aw := AnswerWire(ttl, ip);
    assert buffer[position] == aw[0] && buffer[position + 1] == aw[1];
    DirectOwner(name, buffer, position);
    SliceWithin(buffer, position, aw, 2, 16);
    DirectRecord(name, ttl, ip, buffer, position + 2);
  }

  /** The resolver reads a direct response as the address it carries. */
  lemma ExamineDirect(name: seq<byte>, ttl: seq<byte>, ip: Host)
    requires WellFormed(name) && |ttl| == 4 && ip.Dotted?
    requires |DirectResponse(name, ttl, ip)| <= PacketSize
    ensures Examine(ReceiveBuffer(DirectResponse(name, ttl, ip)), QueryFor(name)) == Final(Ok(ip))
  {
    var resp := DirectResponse(name, ttl, ip);
    var buffer := ReceiveBuffer(resp);
    var body := QueryFor(name).body;
    assert buffer[..|resp|] == resp;
    DirectLayout(name, ttl, ip, buffer);
    HeaderRoundTrip(AnswerHeader, buffer, 0);
    assert CheckHeader(AnswerHeader, QueryFor(name)) == Pass;
    BodyRoundTrip(body, buffer, 12);
    DirectAnswerRecord(name, ttl, ip, buffer, 12 + |BodyWire(body)|);
  }

  /**
   * When the root server answers directly, the resolution returns the address of the answer
   * after querying the root alone.
   */
  lemma DirectAnswer(name: seq<byte>, network: Network, fuel: nat, ttl: seq<byte>, ip: Host)
    requires WellFormed(name) && |ttl| == 4 && ip.Dotted? && fuel > 0
    requires |DirectResponse(name, ttl, ip)| <= PacketSize
    requires network(Root, QueryWire(QueryFor(name))) == Received(DirectResponse(name, ttl, ip))
    ensures Resolution(name, network, fuel) == Trace(Ok(ip), [Root], [])
  {
    ExamineDirect(name, ttl, ip);
    WalkStep(QueryFor(name), QueryWire(QueryFor(name)), network, [Root], {Root}, fuel, fuel - 1);
  }
}
