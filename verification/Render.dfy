/** The text of a request: request line, fields and body (RFC 9112, section 2.1). */
module Render {
  import opened CText
  import opened Decimal
  import opened Url
  import opened HeaderTable
  import opened Request

  /** A field line without its end. */
  function Content(f: Field): string {
    f.key + ": " + f.value
  }

  function Line(f: Field): string {
    Content(f) + CRLF
  }

  function Lines(fs: seq<Field>): string {
    if fs == [] then "" else Line(fs[0]) + Lines(fs[1..])
  }

  predicate HostKnown(v: RequestValue) {
    v.url != "" && UrlOf(v.url).host != ""
  }

  function TargetPath(v: RequestValue): string {
    if v.url == "" then "/" else if HostKnown(v) then UrlOf(v.url).path else v.url
  }

  function HostField(v: RequestValue): Field {
    Field("Host", if HostKnown(v) then HostValue(UrlOf(v.url)) else "localhost")
  }

  /** The Host and Connection fields the builder supplies when the user did not. */
  function Supplied(v: RequestValue): seq<Field> {
    (if HasKey(v.fields, "Host") then [] else [HostField(v)])
    + (if HasKey(v.fields, "Connection") then [] else [Field("Connection", "close")])
  }

  function BodyFields(v: RequestValue): seq<Field> {
    if v.octets == [] then []
    else [Field("Content-Type", v.contentType), Field("Content-Length", Dec(|v.octets|))]
  }

  /** Every field of the request, in the order sent. */
  function Emitted(v: RequestValue): seq<Field> {
    Supplied(v) + v.fields + BodyFields(v)
  }

  function RequestLine(v: RequestValue): string {
    v.verb + " " + TargetPath(v) + " HTTP/1.1"
  }

  function Head(v: RequestValue): string {
    RequestLine(v) + CRLF + Lines(Emitted(v)) + CRLF
  }

  function Rendered(v: RequestValue): seq<char> {
    Head(v) + v.octets
  }

  lemma {:induction false} LinesAppend(fs: seq<Field>, gs: seq<Field>)
    ensures Lines(fs + gs) == Lines(fs) + Lines(gs)
  {
    if fs == [] {
      assert fs + gs == gs;
    } else {
      assert (fs + gs)[1..] == fs[1..] + gs;
      LinesAppend(fs[1..], gs);
    }
  }

  lemma LinesOne(f: Field)
    ensures Lines([f]) == Line(f)
  {
    assert [f][1..] == [];
  }
}
