/** A client of the whole module: headers are set, the request is built and read back by the parser. */
module Loopback {
  import opened CText
  import opened Url
  import opened HeaderTable
  import Request
  import opened Render
  import Builder
  import Response
  import opened ResponseLaws
  import opened RequestLaws
  import opened ReceiverLaws
  import opened TextLines

  const BUFFER_SIZE := 8192

  /** Arguments are C strings. */
  predicate TextFields(sets: seq<Field>) {
    forall i | 0 <= i < |sets| :: '\0' !in sets[i].key && '\0' !in sets[i].value
  }

  /** The calls that set these fields, in order. */
  function Calls(sets: seq<Field>): (ops: seq<Request.Op>)
    ensures |ops| == |sets|
  {
    seq(|sets|, i requires 0 <= i < |sets| => Request.Op.SetHeader(sets[i].key, sets[i].value))
  }

  function Requested(verb: string, url: string, sets: seq<Field>): Request.RequestValue {
    Request.Run(Request.Initial(verb, url), Calls(sets))
  }

  lemma {:induction false} HeadersOnly(verb: string, url: string, sets: seq<Field>)
    ensures var v := Requested(verb, url, sets); v.octets == [] && v.url == Cut(url, Request.URL_SIZE)
  {
    if sets != [] {
      OneCall(verb, url, sets, |sets| - 1);
      HeadersOnly(verb, url, sets[..|sets| - 1]);
      assert sets[..|sets|] == sets;
    }
  }

  lemma OneCall(verb: string, url: string, sets: seq<Field>, i: nat)
    requires i < |sets|
    ensures Requested(verb, url, sets[..i + 1])
         == Request.Step(Requested(verb, url, sets[..i]), Request.Op.SetHeader(sets[i].key, sets[i].value))
  {
    assert Calls(sets[..i + 1])[..i] == Calls(sets[..i]);
  }

  method SetAll(req: Request.Record, ghost verb: string, ghost url: string, sets: seq<Field>)
    requires req.Valid() && req.View() == Request.Initial(verb, url)
    requires TextFields(sets)
    modifies req`headerCount, req.headers
    ensures req.Valid() && req.View() == Requested(verb, url, sets)
  {
    var i := 0;
    assert sets[..0] == [] && Requested(verb, url, []) == Request.Initial(verb, url);
    while i < |sets|
      invariant i <= |sets| && req.Valid() && req.View() == Requested(verb, url, sets[..i])
    {
      OneCall(verb, url, sets, i);
      var rc := req.SetHeader(Some(sets[i].key), Some(sets[i].value));
      i := i + 1;
    }
    assert sets[..i] == sets;
  }

  lemma CallsStored(verb: string, url: string, sets: seq<Field>)
    requires Request.ValidMethod(verb) && '\0' !in url && TextFields(sets)
    ensures Stored(Requested(verb, url, sets))
  {
    assert TextOps(Calls(sets));
    RunStored(verb, url, Calls(sets));
  }

  lemma NothingShown()
    ensures Shown([]) == ""
  {}

  /** What the receiver has before it: the head of the request. */
  lemma Heard(v: Request.RequestValue, mem: seq<char>, size: nat)
    requires Stored(v) && v.octets == [] && InMemory(mem, size, v)
    ensures Response.Received(mem, size) && Response.Scannable(CStr(mem)) && Response.StatusOf(CStr(mem)) == 0
    ensures Response.ParseResponse(mem, size).fields == Response.FieldsOf(Head(v))
  {
    hide Head, Stored, InMemory, Shown, HeaderPieces, LinesRead;
    hide Response.Scannable, Response.StatusOf, Response.FieldsOf;
    HeadText(v);
    TextInMemory(mem, size, v);
    NothingShown();
    assert Head(v) + "" == Head(v);
    BuiltRequestParsed(mem, size, v);
  }

  /** If no part is split, the fields read are the emitted ones. */
  lemma HeadFields(v: Request.RequestValue)
    requires Unsplit(v) && v.octets == []
    ensures Response.FieldsOf(Head(v)) == Response.Kept32(AsRead(Emitted(v), ""))
  {
    hide Head, Shown, HeaderPieces, Response.FieldsOf, LinesRead, AsRead, Emitted, Split, Contents, Unsplit;
    NothingShown();
    assert Head(v) + "" == Head(v);
    ReceivedLines(v);
    UnsplitPieces(v);
    TextParsed(Head(v));
    FieldsRead(Emitted(v), "");
    assert LinesOf(Emitted(v), "") == Contents(Emitted(v)) + ([""] + Split(""));
  }

  /** Builds a request with these headers into the buffer. */
  method BuildInto(buffer: array<char>, verb: string, url: string, sets: seq<Field>) returns (rc: int, size: nat)
    requires buffer.Length == BUFFER_SIZE && '\0' !in verb && '\0' !in url && PortFits(Cut(url, Request.URL_SIZE))
    requires TextFields(sets)
    modifies buffer
    ensures var v := Requested(verb, url, sets);
            && rc == (if Request.ValidMethod(verb) && |Head(v)| < BUFFER_SIZE then 0 else -1)
            && (rc == 0 ==> size < BUFFER_SIZE && InMemory(buffer[..], size, v))
  {
    hide Head, PortFits, Request.ValidMethod, Requested;
    size := 0;
    var req := new Request.Record();
    rc := req.Init(Some(verb), Some(url));
    if rc == 0 {
      SetAll(req, verb, url, sets);
      HeadersOnly(verb, url, sets);
      assert CStr(req.url[..]) == req.View().url;
      assert |Rendered(req.View())| == |Head(req.View())|;
      var out := new Builder.Cell(0);
      rc := Builder.Build(req, buffer, BUFFER_SIZE, out);
      size := out.value;
    }
  }

  lemma FoundText(table: Memory, count: nat, key: string)
    requires count <= MAX_HEADERS && RowsTerminated(table, count)
    ensures var found := Lookup(Rows(table, count), key);
            found.Some? ==> Prefix(found.value, VALUE_SIZE - 1) == found.value
  {
    RowsAre(table, count);
  }

  /** Parses what is in the buffer and looks the key up. */
  method ReadFrom(buffer: array<char>, size: nat, key: string) returns (rc: int, answer: string)
    requires size < UINT32 && '\0' !in key && Response.Received(buffer[..], size)
    requires Response.Scannable(CStr(buffer[..])) && Response.StatusOf(CStr(buffer[..])) == 0
    ensures match Lookup(Response.ParseResponse(buffer[..], size).fields, key)
            case None => rc == -1
            case Some(value) => rc == 0 && answer == value
  {
    hide Response.StatusOf, Response.ParseResponse, Response.Scannable, Response.Received, Lookup;
    var res := new Response.Record();
    rc := Response.Parse(res, buffer, size);
    ghost var found := Lookup(res.View(0).fields, key);
    var value := new char[VALUE_SIZE];
    rc := res.GetHeader(Some(key), value, VALUE_SIZE);
    FoundText(res.headers[..], res.headerCount, key);
    assert value[..VALUE_SIZE] == value[..];
    answer := CStr(value[..]);
  }

  /**
    Sets the headers and looks a key up in what the parser reads of the built request, whatever the arguments. If no
    part is split over lines, that is the answer given for the emitted fields.
   */
  method Echo(verb: string, url: string, sets: seq<Field>, key: string) returns (rc: int, answer: string)
    requires '\0' !in verb && '\0' !in url && '\0' !in key && TextFields(sets)
    requires PortFits(Cut(url, Request.URL_SIZE))
    ensures var v := Requested(verb, url, sets);
            var found := Lookup(Response.FieldsOf(Head(v)), key);
            && rc == (if Request.ValidMethod(verb) && |Head(v)| < BUFFER_SIZE && found.Some? then 0 else -1)
            && (rc == 0 ==> answer == found.value)
            && (Unsplit(v) ==> found == Answer(Emitted(v), "", key))
  {
    hide InMemory, Head, Emitted, Requested, Lookup, PortFits, TextFields, Request.ValidMethod, Answer, Unsplit, AsRead;
    hide Response.Received, Response.Scannable, Response.StatusOf, Response.ParseResponse, Response.FieldsOf, Stored;
    ghost var v := Requested(verb, url, sets);
    answer := "";
    HeadersOnly(verb, url, sets);
    if Unsplit(v) {
      HeadFields(v);
      LookupAnswers(Emitted(v), "", key);
    }
    var buffer, size := new char[BUFFER_SIZE], 0;
    rc, size := BuildInto(buffer, verb, url, sets);
    if rc == 0 {
      CallsStored(verb, url, sets);
      Heard(v, buffer[..], size);
      rc, answer := ReadFrom(buffer, size, key);
    }
  }
}
