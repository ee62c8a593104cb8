/** The whole text of the request any run of calls leaves, in terms of the calls. */
module SentLaws {
  import opened CText
  import opened Decimal
  import opened Url
  import opened UrlLaws
  import opened HeaderTable
  import opened Request
  import opened RequestRuns
  import opened Render

  /** What is requested: the path of a URL that names a host, any other URL as it is, or the root. */
  function SentPath(url: string): string {
    if url == "" then "/" else if UrlOf(url).host == "" then url else UrlOf(url).path
  }

  function SentHost(url: string): string {
    if url == "" || UrlOf(url).host == "" then "localhost" else HostValue(UrlOf(url))
  }

  predicate Sets(fs: seq<Field>, key: string) {
    exists i | 0 <= i < |fs| :: fs[i].key == key
  }

  /** The lines in front of the user's: start line, and Host and Connection where the user set none. */
  function SentFront(verb: string, url: string, fs: seq<Field>): string {
    verb + " " + SentPath(url) + " HTTP/1.1\r\n"
    + (if Sets(fs, "Host") then "" else "Host: " + SentHost(url) + "\r\n")
    + (if Sets(fs, "Connection") then "" else "Connection: close\r\n")
  }

  /** What follows the user's lines: type and length of a body, the blank line and the body. */
  function SentBack(contentType: string, body: seq<char>): string {
    (if body == [] then ""
     else "Content-Type: " + contentType + "\r\n" + "Content-Length: " + Dec(|body|) + "\r\n")
    + "\r\n" + body
  }

  lemma SetsHas(fs: seq<Field>, key: string)
    ensures Sets(fs, key) <==> HasKey(fs, key)
  {
    if HasKey(fs, key) {
      assert fs[FindKey(fs, key)].key == key;
    }
  }

  lemma OneLineText(key: string, value: string)
    ensures Lines([Field(key, value)]) == key + ": " + value + "\r\n"
  {
    LinesOne(Field(key, value));
  }

  lemma SuppliedText(v: RequestValue)
    ensures Lines(Supplied(v)) ==
              (if Sets(v.fields, "Host") then "" else "Host: " + HostField(v).value + "\r\n")
              + (if Sets(v.fields, "Connection") then "" else "Connection: close\r\n")
  {
    hide Lines, HostField, Sets;
    SetsHas(v.fields, "Host");
    SetsHas(v.fields, "Connection");
    var host := if HasKey(v.fields, "Host") then [] else [HostField(v)];
    var connection := if HasKey(v.fields, "Connection") then [] else [Field("Connection", "close")];
    LinesAppend(host, connection);
    NoLines();
    HostLine(v);
    OneLineText("Connection", "close");
    assert "Connection" + ": " + "close" + "\r\n" == "Connection: close\r\n";
  }

  lemma NoLines()
    ensures Lines([]) == ""
  {}

  lemma HostLine(v: RequestValue)
    ensures Lines([HostField(v)]) == "Host: " + HostField(v).value + "\r\n"
  {
    hide Lines;
    OneLineText("Host", HostField(v).value);
    assert "Host" + ": " == "Host: ";
  }

  lemma HostAndPath(v: RequestValue)
    ensures HostField(v).value == SentHost(v.url) && TargetPath(v) == SentPath(v.url)
  {
    hide UrlOf, HostValue;
  }

  lemma BodyText(v: RequestValue)
    ensures Lines(BodyFields(v)) + "\r\n" + v.octets == SentBack(v.contentType, v.octets)
  {
    hide Lines, Dec;
    if v.octets == [] {
      NoLines();
    } else {
      var t, l := Field("Content-Type", v.contentType), Field("Content-Length", Dec(|v.octets|));
      assert [t] + [l] == BodyFields(v);
      LinesAppend([t], [l]);
      OneLineText("Content-Type", v.contentType);
      OneLineText("Content-Length", Dec(|v.octets|));
      assert "Content-Type" + ": " == "Content-Type: " && "Content-Length" + ": " == "Content-Length: ";
    }
  }

  lemma StartText(v: RequestValue)
    ensures RequestLine(v) + CRLF == v.verb + " " + SentPath(v.url) + " HTTP/1.1\r\n"
  {
    hide TargetPath, SentPath;
    HostAndPath(v);
    assert " HTTP/1.1" + CRLF == " HTTP/1.1\r\n";
  }

  /** The text of any stored request. */
  lemma RenderedText(v: RequestValue)
    ensures Rendered(v) == SentFront(v.verb, v.url, v.fields) + Lines(v.fields) + SentBack(v.contentType, v.octets)
  {
    hide Lines, Supplied, BodyFields, SentPath, SentHost, SentBack, RequestLine, HostField, Sets;
    StartText(v);
    SuppliedText(v);
    HostAndPath(v);
    BodyText(v);
    LinesAppend(Supplied(v) + v.fields, BodyFields(v));
    LinesAppend(Supplied(v), v.fields);
    Regrouped(RequestLine(v) + CRLF, Lines(Supplied(v)), Lines(v.fields), Lines(BodyFields(v)), v.octets);
  }

  lemma Regrouped(a: string, b: string, c: string, d: string, e: string)
    ensures a + (b + c + d) + CRLF + e == (a + b) + c + (d + "\r\n" + e)
  {}

  /**
    Over every run, the text of the request in terms of its calls: the last method and URL, the user's fields, and type,
    length and octets of the last body.
   */
  lemma RunSends(verb: string, url: string, ops: seq<Op>)
    requires Listed(verb)
    ensures var v := Run(Initial(verb, url), ops);
            Rendered(v) ==
              SentFront(VerbSet(verb, ops), Prefix(UrlSet(url, ops), 511), v.fields)
              + Lines(v.fields) + SentBack(TypeSet(ops), BodySet(ops))
  {
    hide SentFront, SentBack, Lines, Rendered, Run, Initial;
    RunLeaves(verb, url, ops);
    RenderedText(Run(Initial(verb, url), ops));
  }

  /** The type of a body goes out in front of its length. */
  lemma TypeSent(verb: string, url: string, ops: seq<Op>)
    requires Listed(verb) && BodySet(ops) != []
    ensures var v := Run(Initial(verb, url), ops);
            && |Emitted(v)| >= 2 && Emitted(v)[|Emitted(v)| - 2] == Field("Content-Type", TypeSet(ops))
            && v.octets == BodySet(ops)
  {
    hide Run, Initial, Supplied, Dec;
    RunLeaves(verb, url, ops);
  }

  // ---------------------------------------------------------------- whole requests

  /** Without an init, the method and the URL stay the first ones. */
  lemma {:induction false} KeepsTarget(verb: string, url: string, ops: seq<Op>)
    requires forall i | 0 <= i < |ops| :: !ops[i].Init?
    ensures VerbSet(verb, ops) == verb && UrlSet(url, ops) == url
  {
    if ops != [] {
      KeepsTarget(verb, url, ops[..|ops| - 1]);
    }
  }

  lemma Posted(ops: seq<Op>, v: RequestValue)
    requires ops == [SetHeader("A", "b"), SetBody("{}", Some("application/json"))]
    requires v == Run(Initial("post", "https://h:8443/p"), ops)
    ensures v.fields == [Field("A", "b")] && TypeSet(ops) == "application/json" && BodySet(ops) == "{}"
    ensures VerbSet("post", ops) == "post" && UrlSet("https://h:8443/p", ops) == "https://h:8443/p"
  {
    var v0 := Initial("post", "https://h:8443/p");
    assert ops[..1] == [ops[0]] && ops[..1][..0] == [];
    assert Run(v0, ops[..1]) == Step(v0, ops[0]);
    KeepsTarget("post", "https://h:8443/p", ops[..1]);
    KeepsTarget("post", "https://h:8443/p", ops);
    assert v0.fields == [] && SetField([], "A", "b") == [Field("A", "b")];
  }

  lemma DigitsOf8443()
    ensures Dec(8443) == "8443" && Dec(2) == "2"
  {
    assert Dec(8) == "8" && Dec(84) == Dec(8) + "4" && Dec(844) == Dec(84) + "4" && Dec(8443) == Dec(844) + "3";
  }

  lemma HttpsTarget()
    ensures UrlOf("https://h:8443/p") == Url("https", "h", 8443, "/p") && Dec(8443) == "8443" && Dec(2) == "2"
  {
    hide UrlOf, Dec, Compose, WellFormed;
    var x := Url("https", "h", 8443, "/p");
    DigitsOf8443();
    PortTarget(x);
    assert "https" + "://" + "h" + ":" + "8443" + "/p" == "https://h:8443/p";
  }

  lemma PortTarget(x: Url)
    requires x.scheme == "https" && x.host == "h" && x.path == "/p" && x.port < 0x1_0000
    ensures UrlOf(x.scheme + "://" + x.host + ":" + Dec(x.port) + x.path) == x
  {
    hide UrlOf, Dec;
    NoColonNoSeparator(x.scheme);
    PrintedParses(x);
  }

  lemma PostedParts()
    ensures SentPath("https://h:8443/p") == "/p" && SentHost("https://h:8443/p") == "h:8443"
  {
    hide UrlOf, Dec;
    HttpsTarget();
    assert "h" + ":" + "8443" == "h:8443";
  }

  lemma PostFront(url: string, fs: seq<Field>)
    requires SentPath(url) == "/p" && SentHost(url) == "h:8443" && fs == [Field("A", "b")]
    ensures SentFront("post", url, fs) == "post /p HTTP/1.1\r\n" + "Host: h:8443\r\n" + "Connection: close\r\n"
  {
    hide SentPath, SentHost;
    assert !Sets(fs, "Host") && !Sets(fs, "Connection");
    assert "post" + " " + "/p" + " HTTP/1.1\r\n" == "post /p HTTP/1.1\r\n";
    assert "Host: " + "h:8443" + "\r\n" == "Host: h:8443\r\n";
  }

  lemma PostBack()
    ensures SentBack("application/json", "{}")
         == ("Content-Type: application/json\r\n" + "Content-Length: 2\r\n") + "\r\n" + "{}"
  {
    hide Dec;
    DigitsOf8443();
    assert "Content-Type: " + "application/json" + "\r\n" == "Content-Type: application/json\r\n";
    assert "Content-Length: " + "2" + "\r\n" == "Content-Length: 2\r\n";
  }

  /** A posted request, octet by octet. */
  lemma PostSent()
    ensures var ops := [SetHeader("A", "b"), SetBody("{}", Some("application/json"))];
            Rendered(Run(Initial("post", "https://h:8443/p"), ops)) ==
              ("post /p HTTP/1.1\r\n" + "Host: h:8443\r\n" + "Connection: close\r\n") + "A: b\r\n"
              + (("Content-Type: application/json\r\n" + "Content-Length: 2\r\n") + "\r\n" + "{}")
  {
    hide Run, Initial, Rendered, Lines, SentPath, SentHost, SentFront, SentBack, Prefix;
    hide TypeSet, BodySet, VerbSet, UrlSet;
    var ops, url := [SetHeader("A", "b"), SetBody("{}", Some("application/json"))], "https://h:8443/p";
    var v := Run(Initial("post", url), ops);
    Posted(ops, v);
    RunSends("post", url, ops);
    ShortUrl(url);
    PostedParts();
    PostFront(url, v.fields);
    PostBack();
    OneLineText("A", "b");
    assert "A" + ": " + "b" + "\r\n" == "A: b\r\n";
  }

  lemma ShortUrl(url: string)
    requires |url| < 511
    ensures Prefix(url, 511) == url
  {}

  /** A URL without a host is requested as it is, from the local host. */
  lemma RelativeSent(verb: string, url: string)
    requires Listed(verb) && 0 < |url| < 512 && url[0] == '/' && Find(url, "://") == Absent
    ensures Rendered(Initial(verb, url))
         == verb + " " + url + " HTTP/1.1\r\n" + "Host: localhost\r\n" + "Connection: close\r\n" + "\r\n"
  {
    hide Lines, SentPath, SentHost, Rendered, Find, Cut;
    NoHost(url);
    LocalParts(url);
    RenderedText(Initial(verb, url));
    StoredShort(verb, url);
    NoLines();
    assert "Host: " + "localhost" + "\r\n" == "Host: localhost\r\n";
  }

  lemma NoHost(url: string)
    requires 0 < |url| && url[0] == '/' && Find(url, "://") == Absent
    ensures UrlOf(url).host == ""
  {
    hide Find;
    BareParts(url);
    IndexOfIs(Rest(url), '/', 0);
  }

  lemma LocalParts(url: string)
    requires url != "" && UrlOf(url).host == ""
    ensures SentPath(url) == url && SentHost(url) == "localhost"
  {}

  lemma StoredShort(verb: string, url: string)
    requires Listed(verb) && |url| < 512
    ensures Initial(verb, url).verb == verb && Initial(verb, url).url == url
  {}
}
