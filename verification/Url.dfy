/** The URL parser behind the request line and the Host field. */
module Url {
  import opened CText
  import opened Decimal

  datatype Url = Url(scheme: string, host: string, port: nat, path: string)

  const TEMP_SIZE := 2048
  const SCHEME_SIZE := 16
  const HOST_SIZE := 256
  const PATH_SIZE := 1024

  /** The working copy of the text that is split; a text without a separator is first cut to the host buffer. */
  function Rest(u: string): string {
    var temp := Cut(u, TEMP_SIZE);
    match Find(temp, "://")
    case Absent => Cut(temp, HOST_SIZE)
    case Place(e) => temp[e + 3..]
  }

  function SchemeOf(u: string): string {
    var temp := Cut(u, TEMP_SIZE);
    match Find(temp, "://")
    case Absent => "http"
    case Place(e) => Cut(temp[..e], SCHEME_SIZE)
  }

  function DefaultPort(scheme: string): nat {
    if scheme == "https" then 443 else 80
  }

  function Authority(rest: string): string {
    rest[..IndexOf(rest, '/')]
  }

  /** The number atoi reads after the first colon of the authority. */
  function PortNumber(authority: string): int {
    var colon := IndexOf(authority, ':');
    if colon < |authority| then Atoi(authority, colon + 1) else 0
  }

  function HostOf(rest: string): string {
    Authority(rest)[..IndexOf(Authority(rest), ':')]
  }

  function PortOf(rest: string, defaultPort: nat): nat {
    if ':' in Authority(rest) then PortNumber(Authority(rest)) % 0x1_0000 else defaultPort
  }

  function PathOf(rest: string): string {
    var slash := IndexOf(rest, '/');
    if slash < |rest| then Cut(rest[slash..], PATH_SIZE) else "/"
  }

  /** What fossil__url_parse computes. */
  function UrlOf(u: string): Url {
    var rest := Rest(u);
    Url(SchemeOf(u), Cut(HostOf(rest), HOST_SIZE), PortOf(rest, DefaultPort(SchemeOf(u))), PathOf(rest))
  }

  /** The port text fits an int, outside which atoi is undefined. */
  predicate PortFits(u: string) {
    FitsInt(PortNumber(Authority(Rest(u))))
  }

  /** The parts a parsed URL can have. */
  predicate WellFormed(x: Url) {
    && |x.scheme| < SCHEME_SIZE && Find(x.scheme, "://") == Absent
    && |x.host| < HOST_SIZE && '/' !in x.host && ':' !in x.host
    && x.port < 0x1_0000
    && x.path != "" && x.path[0] == '/' && |x.path| < PATH_SIZE
  }

  function Compose(x: Url): string {
    x.scheme + "://" + x.host + ":" + Dec(x.port) + x.path
  }

  /** The Host field names the port unless it is the one its scheme implies. */
  predicate PortPrinted(x: Url) {
    (x.scheme == "http" && x.port != 80) || (x.scheme == "https" && x.port != 443) || x.port == 0
  }

  function HostValue(x: Url): string {
    if PortPrinted(x) then x.host + ":" + Dec(x.port) else x.host
  }

  /** The URL a recipient rebuilds from the scheme, the Host field and the request target. */
  function Reconstructed(x: Url): string {
    x.scheme + "://" + HostValue(x) + x.path
  }

  // ---------------------------------------------------------------- the parser on its buffers

  /** fossil_url_t. */
  class Parts {
    const scheme: array<char>
    const host: array<char>
    const path: array<char>
    var port: nat

    constructor ()
      ensures Storage() && fresh(scheme) && fresh(host) && fresh(path)
    {
      scheme := new char[SCHEME_SIZE];
      host := new char[HOST_SIZE];
      path := new char[PATH_SIZE];
    }

    predicate Storage() {
      && scheme.Length == SCHEME_SIZE && host.Length == HOST_SIZE && path.Length == PATH_SIZE
      && scheme != host && scheme != path && host != path
    }

    ghost predicate Terminated()
      reads scheme, host, path
    {
      '\0' in scheme[..] && '\0' in host[..] && '\0' in path[..]
    }

    function View(): Url
      reads this, scheme, host, path
    {
      Url(CStr(scheme[..]), CStr(host[..]), port, CStr(path[..]))
    }
  }

  /** fossil__url_parse: cuts the text apart by writing NULs into its working copies. */
  method Parse(url: string, parsed: Parts) returns (rc: int)
    requires parsed.Storage() && '\0' !in url && PortFits(url)
    modifies parsed, parsed.scheme, parsed.host, parsed.path
    ensures rc == 0 && parsed.Terminated() && parsed.View() == UrlOf(url)
  {
    var temp := new char[TEMP_SIZE];
    StoreText(temp, url);
    var schemeEnd := Find(CStr(temp[..]), "://");
    if schemeEnd.Absent? {
      ParseBare(temp, parsed, url);
    } else {
      ParseExplicit(temp, schemeEnd.index, parsed, url);
    }
    return 0;
  }

  /** The branch without a separator works inside the host buffer. */
  method ParseBare(temp: array<char>, parsed: Parts, ghost url: string)
    requires parsed.Storage() && PortFits(url)
    requires CStr(temp[..]) == Cut(url, TEMP_SIZE) && Find(CStr(temp[..]), "://").Absent?
    requires temp !in {parsed.scheme, parsed.host, parsed.path}
    modifies parsed, parsed.scheme, parsed.host, parsed.path
    ensures parsed.Terminated() && parsed.View() == UrlOf(url)
  {
    StoreText(parsed.scheme, "http");
    StoreText(parsed.host, CStr(temp[..]));
    assert parsed.host[0..] == parsed.host[..];
    SplitPath(parsed.host, 0, parsed.path);
    var port := SplitPort(parsed.host, 0, 80, Rest(url));
    parsed.port := port;
    assert parsed.host[0..] == parsed.host[..];
    assert Cut(CStr(parsed.host[..]), HOST_SIZE) == CStr(parsed.host[..]);
  }

  method ParseExplicit(temp: array<char>, e: nat, parsed: Parts, ghost url: string)
    requires parsed.Storage() && PortFits(url)
    requires CStr(temp[..]) == Cut(url, TEMP_SIZE) && Find(CStr(temp[..]), "://") == Place(e)
    requires |CStr(temp[..])| < temp.Length
    requires temp !in {parsed.scheme, parsed.host, parsed.path}
    modifies temp, parsed, parsed.scheme, parsed.host, parsed.path
    ensures parsed.Terminated() && parsed.View() == UrlOf(url)
  {
    var hostStart := e + 3;
    CStrDrop(temp[..], hostStart);
    CutScheme(temp, e);
    StoreText(parsed.scheme, CStr(temp[..]));
    ParseTarget(temp, hostStart, parsed, SchemeOf(url), Rest(url));
  }

  /** What follows the separator: path, port and host, in that order. */
  method ParseTarget(temp: array<char>, hostStart: nat, parsed: Parts, ghost scheme: string, ghost rest: string)
    requires parsed.Storage() && temp !in {parsed.scheme, parsed.host, parsed.path}
    requires hostStart <= temp.Length && CStr(temp[hostStart..]) == rest && |rest| < temp.Length - hostStart
    requires '\0' in parsed.scheme[..] && CStr(parsed.scheme[..]) == scheme && FitsInt(PortNumber(Authority(rest)))
    modifies temp, parsed`port, parsed.host, parsed.path
    ensures parsed.Terminated()
    ensures parsed.View()
         == Url(scheme, Cut(HostOf(rest), HOST_SIZE), PortOf(rest, DefaultPort(scheme)), PathOf(rest))
  {
    SplitPath(temp, hostStart, parsed.path);
    var port := SplitPort(temp, hostStart, DefaultPort(CStr(parsed.scheme[..])), rest);
    parsed.port := port;
    StoreText(parsed.host, CStr(temp[hostStart..]));
  }

  /** Ends the scheme at its separator, leaving what follows the separator alone. */
  method CutScheme(temp: array<char>, e: nat)
    requires e + 3 <= |CStr(temp[..])| < temp.Length
    modifies temp
    ensures CStr(temp[..]) == old(CStr(temp[..]))[..e] && temp[e + 3..] == old(temp[e + 3..])
  {
    assert temp[0..] == temp[..];
    ChopAt(temp, 0, e);
    assert temp[0..] == temp[..];
  }

  /** Copies the path out of the text and ends the text in front of it. */
  method SplitPath(a: array<char>, from: nat, path: array<char>)
    requires a != path && path.Length == PATH_SIZE
    requires from <= a.Length && |CStr(a[from..])| < a.Length - from
    modifies a, path
    ensures a[..from] == old(a[..from])
    ensures CStr(a[from..]) == Authority(old(CStr(a[from..]))) && |CStr(a[from..])| < a.Length - from
    ensures CStr(path[..]) == PathOf(old(CStr(a[from..]))) && '\0' in path[..]
  {
    var rest := CStr(a[from..]);
    var pathStart := IndexOf(rest, '/');
    if pathStart < |rest| {
      StoreText(path, rest[pathStart..]);
      ChopAt(a, from, pathStart);
    } else {
      StoreText(path, "/");
    }
  }

  /** Ends the C string at `a[from..]` after `i` characters. */
  method ChopAt(a: array<char>, from: nat, i: nat)
    requires from <= a.Length && i <= |CStr(a[from..])| < a.Length - from
    modifies a
    ensures a[..] == Overwrite(old(a[..]), from + i, ['\0'])
    ensures CStr(a[from..]) == old(CStr(a[from..]))[..i] && '\0' in a[from..]
  {
    CStrChop(a[from..], i);
    ghost var before := a[from..];
    a[from + i] := '\0';
    assert a[from..] == before[i := '\0'];
    assert a[from..][i] == '\0';
  }

  /** Cuts the authority at its colon and returns the port. */
  method SplitPort(a: array<char>, from: nat, defaultPort: nat, ghost rest: string) returns (port: nat)
    requires from <= a.Length && CStr(a[from..]) == Authority(rest) && |CStr(a[from..])| < a.Length - from
    requires FitsInt(PortNumber(Authority(rest)))
    modifies a
    ensures CStr(a[from..]) == HostOf(rest) && port == PortOf(rest, defaultPort)
    ensures '\0' in a[from..]
  {
    var authority := CStr(a[from..]);
    assert a[from..][|authority|] == '\0';
    var colon := IndexOf(authority, ':');
    IndexFirst(authority, ':');
    if colon < |authority| {
      port := Atoi(authority, colon + 1) % 0x1_0000;
      ChopAt(a, from, colon);
    } else {
      port := defaultPort;
    }
  }
}
