/**
 * Server-list loading and endpoint text of Monitor/SteamDirectory.cs. The web
 * request itself is outside the model: `LoadAsync` starts from its response.
 * `IPAddress.TryParse` and SteamKit2's `ServerRecord.CreateWebSocketServer` are
 * library code and arrive as function parameters.
 */
module Directory {
  import opened Wrappers
  import opened Strings
  import opened Steam

  type Octet = x: int | 0 <= x < 256

  /** An `IPAddress`; an IPv6 address is kept as the text `IPAddress.ToString()` prints for it. */
  datatype IpAddress = IPv4(a: Octet, b: Octet, c: Octet, d: Octet) | IPv6(text: string)

  /** `IPAddress.ToString()`: dotted decimal for IPv4. */
  function FormatIp(ip: IpAddress): string {
    match ip
    case IPv4(a, b, c, d) => NatToString(a) + "." + NatToString(b) + "." + NatToString(c) + "." + NatToString(d)
    case IPv6(text) => text
  }

  /** `IPEndPoint.MinPort` and `IPEndPoint.MaxPort`. */
  const MinPort: int := 0
  const MaxPort: int := 65535

  datatype EndPoint = IpEndPoint(address: IpAddress, port: int) | DnsEndPoint(host: string, port: int)

  /** The `ProtocolTypes` flags of a server record. */
  datatype ProtocolTypes = ProtocolTypes(tcp: bool, udp: bool, webSocket: bool)

  /** `ServerRecord.CreateSocketServer` marks a record as reachable over TCP and UDP. */
  const SocketProtocols := ProtocolTypes(true, true, false)

  datatype ServerRecord = ServerRecord(endPoint: EndPoint, protocolTypes: ProtocolTypes)
  {
    function GetHost(): string {
      match endPoint
      case IpEndPoint(address, _) => FormatIp(address)
      case DnsEndPoint(host, _) => host
    }

    function GetPort(): int {
      endPoint.port
    }
  }

  function CreateSocketServer(ip: IpAddress, port: int): ServerRecord {
    ServerRecord(IpEndPoint(ip, port), SocketProtocols)
  }

  /** The exceptions `LoadAsync` and `StringToServerRecord` throw. */
  datatype DirectoryError =
    | InvalidEndpointFormat       // FormatException "Invalid endpoint format"
    | InvalidIpAddress            // FormatException "Invalid ip-adress"
    | InvalidPort                 // FormatException "Invalid port"
    | PortOutOfRange              // ArgumentOutOfRangeException from `new IPEndPoint`
    | WebApiFailure(result: EResult) // InvalidOperationException: the response's result was not OK
    | InvalidWebSocketEndpoint    // the exception `ServerRecord.CreateWebSocketServer` throws for an entry

  /**
   * `StringToServerRecord`: split on ':' into exactly two fields, an IP address
   * and an `int` port, and build a socket record from them.
   */
  function StringToServerRecord(server: string, tryParseIp: string -> Option<IpAddress>): (r: Result<ServerRecord, DirectoryError>)
    ensures multiset(server)[':'] != 1 ==> r == Failure(InvalidEndpointFormat)
    ensures r.Success? ==> r.value.protocolTypes == SocketProtocols && r.value.endPoint.IpEndPoint?
    ensures r.Success? ==> MinPort <= r.value.endPoint.port <= MaxPort
  {
    var ep := Split(server, ':');
    if |ep| != 2 then Failure(InvalidEndpointFormat)
    else
      SplitAtOnlySeparator(server, ':');
      match tryParseIp(ep[0])
      case None => Failure(InvalidIpAddress)
      case Some(ip) =>
        match ParseInt32(ep[1])
        case Failure(_) => Failure(InvalidPort)
        case Success(port) =>
          if port < MinPort || port > MaxPort then Failure(PortOutOfRange)
          else Success(CreateSocketServer(ip, port))
  }

  /**
   * A successful parse took its address from the text before the only ':' and
   * its port from the text after it.
   */
  lemma StringToServerRecordSuccess(server: string, tryParseIp: string -> Option<IpAddress>)
    requires StringToServerRecord(server, tryParseIp).Success?
    ensures var i := IndexOf(server, ':');
      var r := StringToServerRecord(server, tryParseIp).value;
      && 0 <= i
      && tryParseIp(server[..i]) == Some(r.endPoint.address)
      && ParseInt32(server[i + 1..]) == Success(r.endPoint.port)
  {
    SplitAtOnlySeparator(server, ':');
  }

  /** With exactly one ':', each check that fails names its own error, in source order. */
  lemma StringToServerRecordErrors(server: string, tryParseIp: string -> Option<IpAddress>)
    requires multiset(server)[':'] == 1
    ensures var i := IndexOf(server, ':');
      var host, portText := server[..i], server[i + 1..];
      var r := StringToServerRecord(server, tryParseIp);
      && (tryParseIp(host).None? ==> r == Failure(InvalidIpAddress))
      && (tryParseIp(host).Some? && ParseInt32(portText).Failure? ==> r == Failure(InvalidPort))
      && (tryParseIp(host).Some? && ParseInt32(portText).Success? ==>
            var port := ParseInt32(portText).value;
            r == if MinPort <= port <= MaxPort then Success(CreateSocketServer(tryParseIp(host).value, port))
                 else Failure(PortOutOfRange))
  {
    SplitAtOnlySeparator(server, ':');
  }

  /**
   * `ServerRecordToString`: `"{GetHost()}:{GetPort()}"`. For a host without ':'
   * (every IPv4 address) the first ':' ends the host and the port's text follows it.
   */
  function ServerRecordToString(record: ServerRecord): (s: string)
    ensures var host := record.GetHost();
      ':' !in host ==>
        && IndexOf(s, ':') == |host|
        && s[..|host|] == host
        && s[|host| + 1..] == IntToString(record.GetPort())
  {
    var s := record.GetHost() + ":" + IntToString(record.GetPort());
    assert s[|record.GetHost()|] == ':';
    s
  }

  lemma {:induction false} DigitsHoldNoColon(s: string)
    requires AllDigits(s)
    ensures multiset(s)[':'] == 0
  {
    assert forall k | 0 <= k < |s| :: s[k] != ':' by {
      forall k | 0 <= k < |s| ensures s[k] != ':' {
        assert IsDigit(s[k]);
      }
    }
  }

  lemma DottedQuadHoldsNoColon(ip: IpAddress)
    requires ip.IPv4?
    ensures multiset(FormatIp(ip))[':'] == 0
  {
    DigitsHoldNoColon(NatToString(ip.a));
    DigitsHoldNoColon(NatToString(ip.b));
    DigitsHoldNoColon(NatToString(ip.c));
    DigitsHoldNoColon(NatToString(ip.d));
  }

  /**
   * Printing an IPv4 socket record and parsing the text gives the record back,
   * given the one fact used of `IPAddress.TryParse`: that it reads back the
   * dotted decimal text `IPAddress.ToString()` prints.
   */
  lemma ServerRecordRoundTrip(ip: IpAddress, port: int, tryParseIp: string -> Option<IpAddress>)
    requires ip.IPv4? && MinPort <= port <= MaxPort
    requires tryParseIp(FormatIp(ip)) == Some(ip)
    ensures StringToServerRecord(ServerRecordToString(CreateSocketServer(ip, port)), tryParseIp)
         == Success(CreateSocketServer(ip, port))
  {
    var host, portText := FormatIp(ip), IntToString(port);
    var s := ServerRecordToString(CreateSocketServer(ip, port));
    assert s == host + [':'] + portText;
    DottedQuadHoldsNoColon(ip);
    DigitsHoldNoColon(portText);
    SplitJoined(host, portText, ':');
    ParseIntToString(port);
    ParsesFields(s, host, portText, tryParseIp);
  }

  lemma ParsesFields(s: string, host: string, portText: string, tryParseIp: string -> Option<IpAddress>)
    requires Split(s, ':') == [host, portText]
    requires tryParseIp(host).Some? && ParseInt32(portText).Success?
    requires MinPort <= ParseInt32(portText).value <= MaxPort
    ensures StringToServerRecord(s, tryParseIp) == Success(CreateSocketServer(tryParseIp(host).value, ParseInt32(portText).value))
  {
  }

  /** The reply of the `GetCMList` web call: its result code and its two server lists. */
  datatype DirectoryResponse = DirectoryResponse(result: EResult, serverlist: seq<string>, serverlistWebsockets: seq<string>)

  /** Every socket entry parses into a record. */
  predicate SocketsParse(socketList: seq<string>, tryParseIp: string -> Option<IpAddress>) {
    forall i | 0 <= i < |socketList| :: StringToServerRecord(socketList[i], tryParseIp).Success?
  }

  /**
   * The first loop of `LoadAsync`: every socket entry, parsed, in order; the
   * first entry that does not parse makes the whole list fail with its error.
   */
  method ParseSocketList(socketList: seq<string>, tryParseIp: string -> Option<IpAddress>)
    returns (r: Result<seq<ServerRecord>, DirectoryError>)
    ensures r.Success? <==> SocketsParse(socketList, tryParseIp)
    ensures r.Failure? ==>
      exists i | 0 <= i < |socketList| ::
        && (forall j | 0 <= j < i :: StringToServerRecord(socketList[j], tryParseIp).Success?)
        && StringToServerRecord(socketList[i], tryParseIp).Failure?
        && r == Failure(StringToServerRecord(socketList[i], tryParseIp).error)
    ensures r.Success? ==>
      && |r.value| == |socketList|
      && forall i | 0 <= i < |socketList| :: r.value[i] == StringToServerRecord(socketList[i], tryParseIp).value
  {
    var endPoints: seq<ServerRecord> := [];
    var i := 0;
    while i < |socketList|
      invariant 0 <= i <= |socketList| && |endPoints| == i
      invariant forall k | 0 <= k < i :: StringToServerRecord(socketList[k], tryParseIp).Success?
      invariant forall k | 0 <= k < i :: endPoints[k] == StringToServerRecord(socketList[k], tryParseIp).value
    {
      var record := StringToServerRecord(socketList[i], tryParseIp);
      if record.Failure? {
        r := Failure(record.error);
        assert (forall j | 0 <= j < i :: StringToServerRecord(socketList[j], tryParseIp).Success?)
          && StringToServerRecord(socketList[i], tryParseIp).Failure?
          && r == Failure(StringToServerRecord(socketList[i], tryParseIp).error);
        return;
      }
      endPoints := endPoints + [record.value];
      i := i + 1;
    }
    return Success(endPoints);
  }

  /**
   * The second loop of `LoadAsync`: a websocket record for every entry, in
   * order; `createWebSocketServer` is `None` where the library's factory
   * throws, and the first such entry makes the whole list fail.
   */
  method CreateWebSocketList(websocketList: seq<string>, createWebSocketServer: string -> Option<ServerRecord>)
    returns (r: Result<seq<ServerRecord>, DirectoryError>)
    ensures r.Success? <==> forall i | 0 <= i < |websocketList| :: createWebSocketServer(websocketList[i]).Some?
    ensures r.Failure? ==> r == Failure(InvalidWebSocketEndpoint)
    ensures r.Success? ==>
      && |r.value| == |websocketList|
      && forall i | 0 <= i < |websocketList| :: r.value[i] == createWebSocketServer(websocketList[i]).value
  {
    var records: seq<ServerRecord> := [];
    var j := 0;
    while j < |websocketList|
      invariant 0 <= j <= |websocketList| && |records| == j
      invariant forall k | 0 <= k < j :: createWebSocketServer(websocketList[k]).Some?
      invariant forall k | 0 <= k < j :: records[k] == createWebSocketServer(websocketList[k]).value
    {
      var record := createWebSocketServer(websocketList[j]);
      if record.None? {
        return Failure(InvalidWebSocketEndpoint);
      }
      records := records + [record.value];
      j := j + 1;
    }
    return Success(records);
  }

  /**
   * The continuation of `LoadAsync`: refuse a response whose result is not OK,
   * then append every socket entry, parsed, and after them every websocket
   * entry. The first socket entry that does not parse makes the whole load
   * fail with its error; after all sockets parse, the first websocket entry
   * the factory refuses does.
   */
  method LoadAsync(response: DirectoryResponse, tryParseIp: string -> Option<IpAddress>,
                   createWebSocketServer: string -> Option<ServerRecord>)
    returns (r: Result<seq<ServerRecord>, DirectoryError>)
    ensures response.result != OK ==> r == Failure(WebApiFailure(response.result))
    ensures response.result == OK ==>
      (r.Success? <==>
        && SocketsParse(response.serverlist, tryParseIp)
        && (forall j | 0 <= j < |response.serverlistWebsockets| :: createWebSocketServer(response.serverlistWebsockets[j]).Some?))
    ensures response.result == OK && r.Failure? && !SocketsParse(response.serverlist, tryParseIp) ==>
      exists i | 0 <= i < |response.serverlist| ::
        && (forall j | 0 <= j < i :: StringToServerRecord(response.serverlist[j], tryParseIp).Success?)
        && StringToServerRecord(response.serverlist[i], tryParseIp).Failure?
        && r == Failure(StringToServerRecord(response.serverlist[i], tryParseIp).error)
    ensures response.result == OK && r.Failure? && SocketsParse(response.serverlist, tryParseIp) ==>
      r == Failure(InvalidWebSocketEndpoint)
    ensures r.Success? ==>
      var sockets, websockets := response.serverlist, response.serverlistWebsockets;
      && |r.value| == |sockets| + |websockets|
      && (forall i | 0 <= i < |sockets| :: r.value[i] == StringToServerRecord(sockets[i], tryParseIp).value)
      && (forall j | 0 <= j < |websockets| :: r.value[|sockets| + j] == createWebSocketServer(websockets[j]).value)
  {
    if response.result != OK {
      return Failure(WebApiFailure(response.result));
    }
    var parsed := ParseSocketList(response.serverlist, tryParseIp);
    if parsed.Failure? {
      return Failure(parsed.error);
    }
    var created := CreateWebSocketList(response.serverlistWebsockets, createWebSocketServer);
    if created.Failure? {
      return Failure(created.error);
    }
    return Success(parsed.value + created.value);
  }
}
