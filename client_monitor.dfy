/** `ovpn_client_monitor.py`: how `get_clients_status` turns the lines of
    a management-interface `status` reply into client records, and how it
    merges the routing table into them. */
module ClientMonitor {
  import opened Wrappers
  import opened Text

  /** A client dictionary. `last_ref` is absent until a route sets it. */
  datatype Client = Client(
    commonName: string,
    realAddress: string,
    virtualAddress: string,
    bytesReceived: string,
    bytesSent: string,
    connectedSince: string,
    lastRef: Option<string>)

  /** A route dictionary. */
  datatype Route = Route(virtualAddress: string, commonName: string, realAddress: string, lastRef: string)

  /** What one line of the reply yields. */
  datatype Record = ClientRecord(client: Client) | RouteRecord(route: Route) | NoRecord

  /** The branches of the loop over the lines: `HEADER` lines are skipped,
      a `CLIENT_LIST` line with at least 8 fields is a client, a
      `ROUTING_TABLE` line with at least 5 fields is a route, and every
      other line, `GLOBAL_STATS` among them, yields nothing. */
  function RecordOf(line: string): Record
  {
    if StartsWith(line, "HEADER") then NoRecord
    else if StartsWith(line, "CLIENT_LIST") then
      var f := Split(line, ',');
      if |f| >= 8 then ClientRecord(Client(f[1], f[2], f[3], f[5], f[6], f[7], None)) else NoRecord
    else if StartsWith(line, "ROUTING_TABLE") then
      var f := Split(line, ',');
      if |f| >= 5 then RouteRecord(Route(f[1], f[2], f[3], f[4])) else NoRecord
    else NoRecord
  }

  /** The client a line yields, if any. */
  function ClientsOf(line: string): seq<Client>
  {
    match RecordOf(line) case ClientRecord(c) => [c] case _ => []
  }

  /** The route a line yields, if any. */
  function RoutesOf(line: string): seq<Route>
  {
    match RecordOf(line) case RouteRecord(r) => [r] case _ => []
  }

  /** What the lines yield, one after the other, in input order. */
  function Gather<T>(lines: seq<string>, lineYield: string -> seq<T>): seq<T>
  {
    if lines == [] then [] else Gather(lines[..|lines| - 1], lineYield) + lineYield(lines[|lines| - 1])
  }

  /** The `clients` list after reading `lines`. */
  function Clients(lines: seq<string>): seq<Client>
  {
    Gather(lines, ClientsOf)
  }

  /** The `routing_info` list after reading `lines`. */
  function Routes(lines: seq<string>): seq<Route>
  {
    Gather(lines, RoutesOf)
  }

  /** The loop over the lines of `get_clients_status`. */
  method ParseStatus(lines: seq<string>) returns (clients: seq<Client>, routingInfo: seq<Route>)
    ensures clients == Clients(lines) && routingInfo == Routes(lines)
  {
    clients := [];
    routingInfo := [];
    var i := 0;
    while i < |lines|
      invariant 0 <= i <= |lines|
      invariant clients == Clients(lines[..i]) && routingInfo == Routes(lines[..i])
    {
      var line := lines[i];
      GatherStep(lines, i, ClientsOf);
      GatherStep(lines, i, RoutesOf);
      if StartsWith(line, "HEADER") {
        i := i + 1;
        continue;
      }
      if StartsWith(line, "CLIENT_LIST") {
        var clientData := Split(line, ',');
        if |clientData| >= 8 {
          var client := Client(clientData[1], clientData[2], clientData[3], clientData[5], clientData[6], clientData[7], None);
          clients := clients + [client];
        }
      } else if StartsWith(line, "ROUTING_TABLE") {
        var routingData := Split(line, ',');
        if |routingData| >= 5 {
          var route := Route(routingData[1], routingData[2], routingData[3], routingData[4]);
          routingInfo := routingInfo + [route];
        }
      }
      i := i + 1;
    }
    assert lines[..|lines|] == lines;
  }

  /** One pass of the loop over the lines. */
  lemma GatherStep<T>(lines: seq<string>, i: nat, lineYield: string -> seq<T>)
    requires i < |lines|
    ensures Gather(lines[..i + 1], lineYield) == Gather(lines[..i], lineYield) + lineYield(lines[i])
  {
    assert lines[..i + 1][..i] == lines[..i] && lines[..i + 1][i] == lines[i];
  }

  // ---------------------------------------------------------------------
  // What the parsed lists are
  // ---------------------------------------------------------------------

  /** Reading two parts one after the other: what the second part yields
      follows what the first yields. */
  lemma {:induction false} GatherAppend<T>(a: seq<string>, b: seq<string>, lineYield: string -> seq<T>)
    ensures Gather(a + b, lineYield) == Gather(a, lineYield) + Gather(b, lineYield)
    decreases |b|
  {
    if b == [] {
      assert a + b == a;
    } else {
      var b' := b[..|b| - 1];
      GatherAppend(a, b', lineYield);
      assert (a + b)[..|a + b| - 1] == a + b';
      assert (a + b)[|a + b| - 1] == b[|b| - 1];
    }
  }

  /** The clients and routes of two parts of the reply are those of the
      first part followed by those of the second. */
  lemma ParseAppend(a: seq<string>, b: seq<string>)
    ensures Clients(a + b) == Clients(a) + Clients(b)
    ensures Routes(a + b) == Routes(a) + Routes(b)
  {
    GatherAppend(a, b, ClientsOf);
    GatherAppend(a, b, RoutesOf);
  }

  /** What a single line yields. */
  lemma OneLine(line: string)
    ensures Clients([line]) == ClientsOf(line) && Routes([line]) == RoutesOf(line)
  {
    GatherOne(line, ClientsOf);
    GatherOne(line, RoutesOf);
  }

  lemma GatherOne<T>(line: string, lineYield: string -> seq<T>)
    ensures Gather([line], lineYield) == lineYield(line)
  {
    assert [line][..0] == [] && [line][0] == line;
    assert Gather([line], lineYield) == Gather([], lineYield) + lineYield(line);
  }

  /** `HEADER` and `GLOBAL_STATS` lines yield neither a client nor a
      route. */
  lemma HeaderAndStatsYieldNothing(line: string)
    requires StartsWith(line, "HEADER") || StartsWith(line, "GLOBAL_STATS")
    ensures Clients([line]) == [] && Routes([line]) == []
  {
    OneLine(line);
    if !StartsWith(line, "HEADER") {
      assert line[0] == 'G';
      assert !StartsWith(line, "CLIENT_LIST") by { assert "CLIENT_LIST"[0] == 'C'; }
      assert !StartsWith(line, "ROUTING_TABLE") by { assert "ROUTING_TABLE"[0] == 'R'; }
    }
  }

  /** A `CLIENT_LIST` line yields one client, taking fields 1, 2, 3, 5, 6
      and 7 and no `last_ref`, exactly when it has at least 8 fields; it
      never yields a route. */
  lemma ClientLine(line: string)
    requires StartsWith(line, "CLIENT_LIST")
    ensures var f := Split(line, ',');
      Clients([line]) == (if |f| >= 8 then [Client(f[1], f[2], f[3], f[5], f[6], f[7], None)] else [])
    ensures Routes([line]) == []
  {
    NotHeader(line);
    OneLine(line);
  }

  lemma NotHeader(line: string)
    requires StartsWith(line, "CLIENT_LIST")
    ensures !StartsWith(line, "HEADER")
  {
    assert line[0] == 'C';
    assert "HEADER"[0] == 'H';
  }

  /** A `ROUTING_TABLE` line yields one route, taking fields 1 to 4,
      exactly when it has at least 5 fields; it never yields a client. */
  lemma RouteLine(line: string)
    requires StartsWith(line, "ROUTING_TABLE")
    ensures var f := Split(line, ',');
      Routes([line]) == (if |f| >= 5 then [Route(f[1], f[2], f[3], f[4])] else [])
    ensures Clients([line]) == []
  {
    assert line[0] == 'R';
    assert !StartsWith(line, "HEADER") by { assert "HEADER"[0] == 'H'; }
    assert !StartsWith(line, "CLIENT_LIST") by { assert "CLIENT_LIST"[0] == 'C'; }
    var f := Split(line, ',');
    if |f| >= 5 {
      assert RecordOf(line) == RouteRecord(Route(f[1], f[2], f[3], f[4]));
    } else {
      assert RecordOf(line) == NoRecord;
    }
    OneLine(line);
  }

  /** Each line yields at most one client and at most one route, and no
      parsed client has a `last_ref` yet. */
  lemma {:induction false} ParsedClients(lines: seq<string>)
    ensures |Clients(lines)| <= |lines| && |Routes(lines)| <= |lines|
    ensures forall i :: 0 <= i < |Clients(lines)| ==> Clients(lines)[i].lastRef.None?
    decreases |lines|
  {
    if lines != [] {
      var front := lines[..|lines| - 1];
      ParsedClients(front);
      var tail := ClientsOf(lines[|lines| - 1]);
      assert Clients(lines) == Clients(front) + tail;
      assert forall i :: 0 <= i < |tail| ==> tail[i].lastRef.None?;
    }
  }

  // ---------------------------------------------------------------------
  // The route merge
  // ---------------------------------------------------------------------

  /** One pass of the inner loop of the merge. */
  function Apply(c: Client, r: Route): Client
  {
    if c.commonName == r.commonName then c.(virtualAddress := r.virtualAddress, lastRef := Some(r.lastRef)) else c
  }

  /** A client after the inner loop has run over `routes`. */
  function Applied(c: Client, routes: seq<Route>): Client
  {
    if routes == [] then c else Apply(Applied(c, routes[..|routes| - 1]), routes[|routes| - 1])
  }

  /** The position of the last route with that common name. */
  function LastMatch(name: string, routes: seq<Route>): (k: Option<nat>)
    ensures k.None? ==> forall j :: 0 <= j < |routes| ==> routes[j].commonName != name
    ensures k.Some? ==>
      k.value < |routes| && routes[k.value].commonName == name
      && forall j :: k.value < j < |routes| ==> routes[j].commonName != name
  {
    if routes == [] then None
    else if routes[|routes| - 1].commonName == name then Some(|routes| - 1)
    else LastMatch(name, routes[..|routes| - 1])
  }

  /** The merge decides by the last matching route: without one the client
      is untouched; with one it takes that route's virtual address and
      last reference, and every other field stays as parsed. */
  lemma {:induction false} AppliedMeaning(c: Client, routes: seq<Route>)
    ensures Applied(c, routes) ==
      match LastMatch(c.commonName, routes)
      case None => c
      case Some(k) => c.(virtualAddress := routes[k].virtualAddress, lastRef := Some(routes[k].lastRef))
  {
    if routes != [] {
      AppliedMeaning(c, routes[..|routes| - 1]);
    }
  }

  /** The merged list of clients. */
  function Merged(clients: seq<Client>, routes: seq<Route>): (r: seq<Client>)
    ensures |r| == |clients| && forall i :: 0 <= i < |clients| ==> r[i] == Applied(clients[i], routes)
  {
    seq(|clients|, i requires 0 <= i < |clients| => Applied(clients[i], routes))
  }

  /** The merge never adds, removes or reorders clients: each keeps its
      common name, real address, byte counts and connection time; a client
      without a matching route keeps everything, and one with matching
      routes takes the last one's virtual address and last reference. */
  lemma MergedMeaning(clients: seq<Client>, routes: seq<Route>)
    ensures |Merged(clients, routes)| == |clients|
    ensures forall i :: 0 <= i < |clients| ==>
      var m := Merged(clients, routes)[i];
      m.commonName == clients[i].commonName && m.realAddress == clients[i].realAddress
      && m.bytesReceived == clients[i].bytesReceived && m.bytesSent == clients[i].bytesSent
      && m.connectedSince == clients[i].connectedSince
    ensures forall i :: 0 <= i < |clients| ==>
      LastMatch(clients[i].commonName, routes).None? ==> Merged(clients, routes)[i] == clients[i]
    ensures forall i :: 0 <= i < |clients| ==>
      var k := LastMatch(clients[i].commonName, routes);
      k.Some? ==>
        Merged(clients, routes)[i].virtualAddress == routes[k.value].virtualAddress
        && Merged(clients, routes)[i].lastRef == Some(routes[k.value].lastRef)
  {
    forall i | 0 <= i < |clients|
      ensures Merged(clients, routes)[i] ==
        match LastMatch(clients[i].commonName, routes)
        case None => clients[i]
        case Some(k) => clients[i].(virtualAddress := routes[k].virtualAddress, lastRef := Some(routes[k].lastRef))
    {
      AppliedMeaning(clients[i], routes);
    }
  }

  /** `client.get('last_ref', 'N/A')`. */
  function LastRefShown(c: Client): string
  {
    match c.lastRef
    case None => "N/A"
    case Some(t) => t
  }

  /** A parsed client that no route names is shown with its `CLIENT_LIST`
      virtual address and `N/A` as its last reference. */
  lemma UnroutedClientShown(lines: seq<string>, i: nat)
    requires i < |Clients(lines)|
    requires LastMatch(Clients(lines)[i].commonName, Routes(lines)).None?
    ensures Merged(Clients(lines), Routes(lines))[i].virtualAddress == Clients(lines)[i].virtualAddress
    ensures LastRefShown(Merged(Clients(lines), Routes(lines))[i]) == "N/A"
  {
    ParsedClients(lines);
    MergedMeaning(Clients(lines), Routes(lines));
  }

  /** The nested loop of the merge, updating the client records in place. */
  method MergeRoutes(clients: array<Client>, routingInfo: seq<Route>)
    modifies clients
    ensures clients[..] == Merged(old(clients[..]), routingInfo)
  {
    ghost var original := clients[..];
    var i := 0;
    while i < clients.Length
      invariant 0 <= i <= clients.Length
      invariant forall k :: 0 <= k < i ==> clients[k] == Applied(original[k], routingInfo)
      invariant forall k :: i <= k < clients.Length ==> clients[k] == original[k]
    {
      var j := 0;
      while j < |routingInfo|
        invariant 0 <= j <= |routingInfo|
        invariant clients[i] == Applied(original[i], routingInfo[..j])
        invariant forall k :: 0 <= k < i ==> clients[k] == Applied(original[k], routingInfo)
        invariant forall k :: i < k < clients.Length ==> clients[k] == original[k]
      {
        var route := routingInfo[j];
        assert routingInfo[..j + 1][..j] == routingInfo[..j];
        if clients[i].commonName == route.commonName {
          clients[i] := clients[i].(virtualAddress := route.virtualAddress, lastRef := Some(route.lastRef));
        }
        j := j + 1;
      }
      assert routingInfo[..|routingInfo|] == routingInfo;
      i := i + 1;
    }
  }

  /** The response-handling part of `get_clients_status`: parse the lines,
      then merge the routes into the clients. */
  method GetClientsStatus(lines: seq<string>) returns (result: seq<Client>)
    ensures result == Merged(Clients(lines), Routes(lines))
  {
    var clients, routingInfo := ParseStatus(lines);
    var records := new Client[|clients|](k requires 0 <= k < |clients| => clients[k]);
    assert records[..] == clients;
    MergeRoutes(records, routingInfo);
    result := records[..];
  }
}
