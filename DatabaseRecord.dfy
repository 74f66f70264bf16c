/** A CM server address as stored in the `CMs` table (Monitor/DatabaseRecord.cs). */
module Records {
  import opened Wrappers
  import opened Strings

  datatype DatabaseRecord = DatabaseRecord(hostname: string, port: int, isWebSocket: bool, datacenter: string)
  {
    /**
     * `GetUniqueKey()`: `"{IsWebSocket}@{Hostname}"`; the port is not part of it.
     * `KeySplitsAtFirstAt` and `KeyInjective` state what the key determines.
     */
    function GetUniqueKey(): string {
      BoolToString(isWebSocket) + "@" + hostname
    }

    /**
     * `GetString()`: `"{Hostname}:{Port}"`. For a hostname without ':' the first
     * ':' of the address ends the hostname and the port's text follows it.
     */
    function GetString(): (address: string)
      ensures ':' !in hostname ==>
        && IndexOf(address, ':') == |hostname|
        && address[..|hostname|] == hostname
        && address[|hostname| + 1..] == IntToString(port)
    {
      var address := hostname + ":" + IntToString(port);
      assert address[|hostname|] == ':';
      address
    }

    /** What every record the constructor builds satisfies. */
    predicate WellFormed() {
      ':' !in hostname && InInt32(port)
    }
  }

  /** The exceptions the constructor can throw. */
  datatype RecordError =
    | ArgumentOutOfRange          // `Substring(0, -1)` when the address holds no ':'
    | PortNotNumber(e: NumberError) // `int.Parse` of the text after the first ':'

  /**
   * The constructor `DatabaseRecord(address, datacenter, isWebsocket)`: the text
   * before the first ':' is the hostname, the text after it must parse as an `int`.
   */
  function ParseRecord(address: string, datacenter: string, isWebsocket: bool): (r: Result<DatabaseRecord, RecordError>)
    ensures r.Success? ==> r.value.WellFormed()
    ensures r.Success? ==> r.value.isWebSocket == isWebsocket && r.value.datacenter == datacenter
  {
    var indexOfColon := IndexOf(address, ':');
    var portNumber := address[indexOfColon + 1..];
    if indexOfColon < 0 then Failure(ArgumentOutOfRange)
    else
      match ParseInt32(portNumber)
      case Failure(e) => Failure(PortNotNumber(e))
      case Success(port) => Success(DatabaseRecord(address[..indexOfColon], port, isWebsocket, datacenter))
  }

  /** An address without ':' is refused, and that is the only cause of `ArgumentOutOfRange`. */
  lemma NoColonFails(address: string, datacenter: string, isWebsocket: bool)
    ensures ParseRecord(address, datacenter, isWebsocket) == Failure(ArgumentOutOfRange) <==> ':' !in address
  {
  }

  /**
   * A successful parse splits the address at its first ':' into the hostname and
   * the port text, and the port is that text's value.
   */
  lemma ParseSplitsAtFirstColon(address: string, datacenter: string, isWebsocket: bool)
    requires ParseRecord(address, datacenter, isWebsocket).Success?
    ensures var r := ParseRecord(address, datacenter, isWebsocket).value;
      var portText := address[IndexOf(address, ':') + 1..];
      address == r.hostname + ":" + portText && ParseInt32(portText) == Success(r.port)
  {
    var i := IndexOf(address, ':');
    var h := ParseRecord(address, datacenter, isWebsocket).value.hostname;
    assert h == address[..i];
    SplitAround(address, i);
  }

  lemma SplitAround(s: string, i: int)
    requires 0 <= i < |s| && s[i] == ':'
    ensures s == s[..i] + ":" + s[i + 1..]
  {
    assert s == s[..i] + [s[i]] + s[i + 1..];
  }

  /** Port text holding a second ':' is refused by `int.Parse`. */
  lemma SecondColonFails(address: string, datacenter: string, isWebsocket: bool)
    requires multiset(address)[':'] >= 2
    ensures ParseRecord(address, datacenter, isWebsocket) == Failure(PortNotNumber(FormatError))
  {
    var i := IndexOf(address, ':');
    assert address == address[..i] + [':'] + address[i + 1..];
    assert multiset(address[..i])[':'] == 0;
    assert ':' in address[i + 1..];
    ParseRejectsForeignChar(address[i + 1..], ':');
  }

  /** Parsing the text `GetString()` prints gives back the same record. */
  lemma RecordRoundTrip(r: DatabaseRecord)
    requires r.WellFormed()
    ensures ParseRecord(r.GetString(), r.datacenter, r.isWebSocket) == Success(r)
  {
    var a := r.GetString();
    var n := |r.hostname|;
    assert a[n] == ':';
    assert a[..n] == r.hostname;
    assert IndexOf(a, ':') == n;
    assert a[n + 1..] == IntToString(r.port);
    ParseIntToString(r.port);
  }

  /**
   * For a parsed address, printing the record again reproduces the address
   * exactly when the port text was already in the form `ToString()` writes
   * (no sign '+', no white space, no leading zeros).
   */
  lemma CanonicalAddressRoundTrip(address: string, datacenter: string, isWebsocket: bool)
    requires ParseRecord(address, datacenter, isWebsocket).Success?
    ensures var r := ParseRecord(address, datacenter, isWebsocket).value;
      r.GetString() == address <==> address[IndexOf(address, ':') + 1..] == IntToString(r.port)
  {
    ParseSplitsAtFirstColon(address, datacenter, isWebsocket);
    var r := ParseRecord(address, datacenter, isWebsocket).value;
    var i := IndexOf(address, ':');
    var n := |r.hostname|;
    assert r.GetString()[n + 1..] == IntToString(r.port);
    assert address[n + 1..] == address[i + 1..];
  }

  /**
   * The first '@' of a key splits it back into the transport's text and the
   * hostname, whatever the hostname holds.
   */
  lemma KeySplitsAtFirstAt(r: DatabaseRecord)
    ensures var key := r.GetUniqueKey();
      && IndexOf(key, '@') == |BoolToString(r.isWebSocket)|
      && key[..IndexOf(key, '@')] == BoolToString(r.isWebSocket)
      && key[IndexOf(key, '@') + 1..] == r.hostname
  {
    var key, t := r.GetUniqueKey(), BoolToString(r.isWebSocket);
    assert key[|t|] == '@';
    assert key[..|t|] == t;
  }

  /** Two records share a key exactly when they agree on transport and hostname. */
  lemma KeyInjective(a: DatabaseRecord, b: DatabaseRecord)
    ensures a.GetUniqueKey() == b.GetUniqueKey() <==> (a.isWebSocket == b.isWebSocket && a.hostname == b.hostname)
  {
    if a.GetUniqueKey() == b.GetUniqueKey() {
      assert a.GetUniqueKey()[0] == b.GetUniqueKey()[0];
      var prefix := |BoolToString(a.isWebSocket) + "@"|;
      assert a.hostname == a.GetUniqueKey()[prefix..];
      assert b.hostname == b.GetUniqueKey()[prefix..];
    }
  }
}
