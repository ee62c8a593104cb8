/** The bounded builder, writing a request into a caller's buffer piece by piece. */
module Builder {
  import opened CText
  import opened Decimal
  import opened Url
  import opened HeaderTable
  import opened Request
  import opened Render

  /** The `uint32_t` an out-parameter points to. */
  class Cell {
    var value: nat
    constructor (value: nat)
      ensures this.value == value
    {
      this.value := value;
    }
  }

  /** snprintf into the rest of the buffer, with the length check every call is followed by. */
  method Emit(buffer: array<char>, size: nat, offset: nat, text: string, ghost done: string)
    returns (ok: bool, next: nat)
    requires size <= buffer.Length && offset == |done| < size && buffer[..offset] == done && '\0' !in text
    modifies buffer
    ensures ok <==> |done + text| < size
    ensures ok ==> next == |done + text| && buffer[..next] == done + text && buffer[next] == '\0'
    ensures buffer[size..] == old(buffer[size..])
  {
    ghost var before := buffer[..];
    SafeCopy(buffer, offset, Some(text), size - offset);
    assert buffer[size..] == before[size..];
    var n := |text|;
    ok, next := n < size - offset, offset + n;
    if ok {
      assert buffer[..offset] == before[..offset];
      assert buffer[offset..next] == text;
      assert buffer[..next] == buffer[..offset] + buffer[offset..next];
    }
  }

  /** One field line. */
  method EmitField(buffer: array<char>, size: nat, offset: nat, key: string, value: string, ghost done: string)
    returns (ok: bool, next: nat)
    requires size <= buffer.Length && offset == |done| < size && buffer[..offset] == done
    requires '\0' !in key && '\0' !in value
    modifies buffer
    ensures ok <==> |done + Line(Field(key, value))| < size
    ensures ok ==> next == |done + Line(Field(key, value))| && buffer[..next] == done + Line(Field(key, value))
    ensures buffer[size..] == old(buffer[size..])
  {
    var text := key + ": " + value + CRLF;
    ok, next := Emit(buffer, size, offset, text, done);
  }

  /** Sends the user's fields in table order. */
  method EmitFields(headers: array<char>, count: nat, buffer: array<char>, size: nat, offset: nat, ghost done: string)
    returns (ok: bool, next: nat)
    requires headers.Length == TABLE_SIZE && count <= MAX_HEADERS && buffer != headers
    requires RowsTerminated(headers[..], count)
    requires size <= buffer.Length && offset == |done| < size && buffer[..offset] == done
    modifies buffer
    ensures var text := Lines(Rows(headers[..], count));
            && (ok <==> |done + text| < size)
            && (ok ==> next == |done + text| && buffer[..next] == done + text)
    ensures buffer[size..] == old(buffer[size..])
  {
    ghost var fs := Rows(headers[..], count);
    ghost var sent := done;
    next := offset;
    var i := 0;
    assert fs[..0] == [];
    while i < count
      invariant i <= count && Rows(headers[..], count) == fs
      invariant sent == done + Lines(fs[..i]) && next == |sent| < size && buffer[..next] == sent
      invariant buffer[size..] == old(buffer[size..])
    {
      var key, value := CStr(KeyBytes(headers[..], i)), CStr(ValueBytes(headers[..], i));
      RowsAre(headers[..], count);
      assert fs[i] == Field(key, value);
      AppendLine(done, fs, i);
      ok, next := EmitField(buffer, size, next, key, value, sent);
      if !ok {
        return;
      }
      sent := sent + Line(fs[i]);
      i := i + 1;
    }
    ok := true;
    assert fs[..i] == fs;
  }

  /** The fields sent so far grow by one line and never past the whole. */
  lemma AppendLine(done: string, fs: seq<Field>, i: nat)
    requires i < |fs|
    ensures done + Lines(fs[..i]) + Line(fs[i]) == done + Lines(fs[..i + 1])
    ensures |Lines(fs[..i + 1])| <= |Lines(fs)|
  {
    assert fs[..i + 1] == fs[..i] + [fs[i]];
    LinesAppend(fs[..i], [fs[i]]);
    LinesOne(fs[i]);
    assert fs == fs[..i + 1] + fs[i + 1..];
    LinesAppend(fs[..i + 1], fs[i + 1..]);
  }

  ghost predicate Among(fs: seq<Field>, n: nat, key: string) {
    exists j | 0 <= j < n && j < |fs| :: fs[j].key == key
  }

  lemma AmongAll(fs: seq<Field>, key: string)
    ensures Among(fs, |fs|, key) <==> HasKey(fs, key)
  {}

  /** Whether the user set the two mandatory fields. */
  method Detect(headers: array<char>, count: nat) returns (hasHost: bool, hasConnection: bool)
    requires headers.Length == TABLE_SIZE && count <= MAX_HEADERS
    ensures hasHost <==> HasKey(Rows(headers[..], count), "Host")
    ensures hasConnection <==> HasKey(Rows(headers[..], count), "Connection")
  {
    ghost var fs := Rows(headers[..], count);
    RowsAre(headers[..], count);
    hasHost, hasConnection := false, false;
    var i := 0;
    while i < count
      invariant i <= count
      invariant hasHost <==> Among(fs, i, "Host")
      invariant hasConnection <==> Among(fs, i, "Connection")
    {
      var key := Row(headers[..], i).key;
      assert fs[i].key == key;
      hasHost := hasHost || key == "Host";
      hasConnection := hasConnection || key == "Connection";
      i := i + 1;
    }
    AmongAll(fs, "Host");
    AmongAll(fs, "Connection");
  }

  /** The request target and the Host value, from the stored URL. */
  method Target(url: string) returns (path: string, host: string)
    requires '\0' !in url && PortFits(url)
    ensures '\0' !in path && '\0' !in host
    ensures path == if url == "" then "/" else if UrlOf(url).host != "" then UrlOf(url).path else url
    ensures host == if url != "" && UrlOf(url).host != "" then HostValue(UrlOf(url)) else "localhost"
  {
    path, host := "/", "localhost";
    if url != "" {
      var parsed := new Parts();
      var rc := Parse(url, parsed);
      var x := parsed.View();
      if rc == 0 && x.host != "" {
        path := if x.path != "" then x.path else "/";
        DecReads(x.port);
        host := if PortPrinted(x) then x.host + ":" + Dec(x.port) else x.host;
      } else {
        path := url;
      }
    }
  }

  /** The Host and Connection fields, unless the user set them. */
  method EmitSupplied(hasHost: bool, hasConnection: bool, host: string, buffer: array<char>, size: nat, offset: nat,
                      ghost v: RequestValue, ghost done: string)
    returns (ok: bool, next: nat)
    requires hasHost == HasKey(v.fields, "Host") && hasConnection == HasKey(v.fields, "Connection")
    requires '\0' !in host && Field("Host", host) == HostField(v)
    requires size <= buffer.Length && offset == |done| < size && buffer[..offset] == done
    modifies buffer
    ensures var text := Lines(Supplied(v));
            && (ok <==> |done + text| < size)
            && (ok ==> next == |done + text| && buffer[..next] == done + text)
    ensures buffer[size..] == old(buffer[size..])
  {
    SuppliedLines(v, done);
    ghost var sent := done;
    ok, next := true, offset;
    if !hasHost {
      ok, next := EmitField(buffer, size, next, "Host", host, sent);
      sent := sent + Line(HostField(v));
    }
    if ok && !hasConnection {
      ok, next := EmitField(buffer, size, next, "Connection", "close", sent);
    }
  }

  lemma SuppliedLines(v: RequestValue, done: string)
    ensures var withHost := if HasKey(v.fields, "Host") then done else done + Line(HostField(v));
            var closing := Line(Field("Connection", "close"));
            var all := if HasKey(v.fields, "Connection") then withHost else withHost + closing;
            done + Lines(Supplied(v)) == all
  {
    var host := if HasKey(v.fields, "Host") then [] else [HostField(v)];
    var connection := if HasKey(v.fields, "Connection") then [] else [Field("Connection", "close")];
    LinesAppend(host, connection);
    LinesOne(HostField(v));
    LinesOne(Field("Connection", "close"));
    assert done + (Lines(host) + Lines(connection)) == done + Lines(host) + Lines(connection);
  }

  function BodyLinesText(contentType: string, length: nat): string {
    Line(Field("Content-Type", contentType)) + Line(Field("Content-Length", Dec(length)))
  }

  /** The fields that announce a body. */
  method EmitBodyFields(contentType: string, length: nat, buffer: array<char>, size: nat, offset: nat,
                        ghost done: string)
    returns (ok: bool, next: nat)
    requires '\0' !in contentType
    requires size <= buffer.Length && offset == |done| < size && buffer[..offset] == done
    modifies buffer
    ensures var text := BodyLinesText(contentType, length);
            && (ok <==> |done + text| < size)
            && (ok ==> next == |done + text| && buffer[..next] == done + text)
    ensures buffer[size..] == old(buffer[size..])
  {
    ghost var first := Line(Field("Content-Type", contentType));
    ok, next := EmitField(buffer, size, offset, "Content-Type", contentType, done);
    if ok {
      DecReads(length);
      ok, next := EmitField(buffer, size, next, "Content-Length", Dec(length), done + first);
    }
    assert done + first + Line(Field("Content-Length", Dec(length)))
        == done + (first + Line(Field("Content-Length", Dec(length))));
  }

  /** The request line and the supplied fields. */
  method EmitTop(headers: array<char>, count: nat, buffer: array<char>, size: nat, verb: string, url: string,
                 ghost v: RequestValue)
    returns (ok: bool, next: nat)
    requires headers.Length == TABLE_SIZE && count <= MAX_HEADERS && buffer != headers
    requires 0 < size <= buffer.Length && PortFits(url) && '\0' !in verb && '\0' !in url
    requires v.verb == verb && v.url == url && v.fields == Rows(headers[..], count)
    modifies buffer
    ensures ok <==> |Top(v)| < size
    ensures ok ==> next == |Top(v)| && buffer[..next] == Top(v)
    ensures buffer[size..] == old(buffer[size..])
  {
    var path, host := Target(url);
    var line := verb + " " + path + " HTTP/1.1" + CRLF;
    assert line == RequestLine(v) + CRLF;
    ok, next := Emit(buffer, size, 0, line, "");
    if ok {
      var hasHost, hasConnection := Detect(headers, count);
      ok, next := EmitSupplied(hasHost, hasConnection, host, buffer, size, next, v, line);
    }
  }

  /** Everything up to and including the blank line. */
  method EmitHead(headers: array<char>, count: nat, buffer: array<char>, size: nat, verb: string, url: string,
                  contentType: string, bodySize: nat, ghost v: RequestValue)
    returns (ok: bool, next: nat)
    requires headers.Length == TABLE_SIZE && count <= MAX_HEADERS && buffer != headers
    requires RowsTerminated(headers[..], count)
    requires 0 < size <= buffer.Length && PortFits(url)
    requires '\0' !in verb && '\0' !in url && '\0' !in contentType
    requires v.verb == verb && v.url == url && v.fields == Rows(headers[..], count)
    requires v.contentType == contentType && |v.octets| == bodySize
    modifies buffer
    ensures ok <==> |Head(v)| < size
    ensures ok ==> next == |Head(v)| && buffer[..next] == Head(v) && buffer[next] == '\0'
    ensures buffer[size..] == old(buffer[size..])
  {
    HeadGrows(v);
    ok, next := EmitTop(headers, count, buffer, size, verb, url, v);
    if ok {
      ok, next := EmitFields(headers, count, buffer, size, next, Top(v));
    }
    if ok && bodySize > 0 {
      ok, next := EmitBodyFields(contentType, bodySize, buffer, size, next, Middle(v));
    }
    if ok {
      ok, next := Emit(buffer, size, next, CRLF, Bottom(v));
    }
  }

  /** The length check in front of the body: the sum of two 32-bit numbers wraps. */
  predicate Exceeds(offset: nat, sent: nat, size: nat) {
    (offset + sent) % UINT32 > size
  }

  /** The check stops a body exactly when it does not fit and the sum does not wrap. */
  lemma LengthCheck(offset: nat, sent: nat, size: nat)
    requires offset < size < UINT32 && sent < UINT32
    ensures Exceeds(offset, sent, size) <==> size < offset + sent < UINT32
  {
    if offset + sent >= UINT32 {
      assert (offset + sent) % UINT32 == offset + sent - UINT32;
    }
  }

  lemma PostHead(v: RequestValue)
    requires v.verb == "post" && v.url == "" && v.fields == [] && v.contentType == "text/plain"
    requires 0 < |v.octets| < UINT32
    ensures |Head(v)| < 200
  {
    hide Lines, UrlOf, Dec;
    assert Pow10(10) == 10_000_000_000;
    DecLength(|v.octets|, 10, Pow10(10));
    var host, close := Field("Host", "localhost"), Field("Connection", "close");
    var kind, length := Field("Content-Type", "text/plain"), Field("Content-Length", Dec(|v.octets|));
    assert Emitted(v) == [host] + [close] + [kind] + [length];
    LinesAppend([host] + [close] + [kind], [length]);
    LinesAppend([host] + [close], [kind]);
    LinesAppend([host], [close]);
    LinesOne(host);
    LinesOne(close);
    LinesOne(kind);
    LinesOne(length);
  }

  /** A posted body of almost 4 GiB passes the check for a buffer of 8192 octets. */
  lemma LengthCheckWraps(octets: seq<char>)
    requires |octets| == UINT32 - 1
    ensures var v := Initial("post", "").(octets := octets);
            |Head(v)| < 8192 < |Rendered(v)| && !Exceeds(|Head(v)|, |v.octets|, 8192)
  {
    hide Exceeds, Head;
    var v := Initial("post", "").(octets := octets);
    assert Cut("text/plain", TYPE_SIZE) == "text/plain" && v.verb == "post" && v.url == "";
    PostHead(v);
    assert |Head(v)| > 0 by {
      HeadNotEmpty(v);
    }
    LengthCheck(|Head(v)|, |v.octets|, 8192);
  }

  lemma HeadNotEmpty(v: RequestValue)
    ensures |Head(v)| > 0
  {}

  /** The head and then the body, against one length check in 32 bits. */
  method EmitAll(headers: array<char>, count: nat, body: array?<char>, bodySize: nat, buffer: array<char>, size: nat,
                 verb: string, url: string, contentType: string, ghost v: RequestValue)
    returns (rc: int, offset: nat)
    requires headers.Length == TABLE_SIZE && count <= MAX_HEADERS && buffer != headers && buffer != body
    requires RowsTerminated(headers[..], count)
    requires 0 < size <= buffer.Length && PortFits(url)
    requires '\0' !in verb && '\0' !in url && '\0' !in contentType
    requires v.verb == verb && v.url == url && v.fields == Rows(headers[..], count) && v.contentType == contentType
    requires body != null ==> bodySize <= body.Length
    requires v.octets == if body != null then body[..bodySize] else []
    requires size < UINT32 && (|Head(v)| < size ==> |Rendered(v)| < UINT32)
    modifies buffer
    ensures rc == if |Head(v)| < size && |Rendered(v)| <= size then 0 else -1
    ensures rc == 0 ==> offset == |Rendered(v)| && buffer[..offset] == Rendered(v)
    ensures rc == 0 && v.octets == [] ==> buffer[offset] == '\0'
    ensures buffer[size..] == old(buffer[size..])
  {
    hide Exceeds;
    var sent := if body != null then bodySize else 0;
    var ok;
    ok, offset := EmitHead(headers, count, buffer, size, verb, url, contentType, sent, v);
    if !ok {
      return -1, 0;
    }
    if sent > 0 {
      LengthCheck(offset, sent, size);
      if Exceeds(offset, sent, size) {
        return -1, 0;
      }
      CopyBody(body, sent, buffer, offset, size);
      offset := offset + sent;
    }
    return 0, offset;
  }

  /** fossil__http_build_request. */
  method Build(req: Record, buffer: array<char>, size: nat, out: Cell) returns (rc: int)
    requires req.Valid() && buffer !in req.Buffers() && buffer != req.body
    requires size <= buffer.Length && size < UINT32
    requires PortFits(CStr(req.url[..]))
    requires |Head(req.View())| < size ==> |Rendered(req.View())| < UINT32
    modifies buffer, out
    ensures rc == if |Head(req.View())| < size && |Rendered(req.View())| <= size then 0 else -1
    ensures rc == 0 ==> out.value == |Rendered(req.View())| && buffer[..out.value] == Rendered(req.View())
    ensures rc == 0 && req.View().octets == [] ==> buffer[out.value] == '\0'
    ensures rc != 0 ==> out.value == old(out.value)
    ensures buffer[size..] == old(buffer[size..]) && req.Valid() && req.View() == old(req.View())
  {
    if size == 0 {
      return -1;
    }
    ghost var v := req.View();
    var offset;
    rc, offset := EmitAll(req.headers, req.headerCount, req.body, req.bodySize, buffer, size, CStr(req.verb[..]),
                          CStr(req.url[..]), CStr(req.contentType[..]), v);
    assert req.View() == v;
    if rc == 0 {
      out.value := offset;
    }
  }

  ghost function Top(v: RequestValue): string {
    RequestLine(v) + CRLF + Lines(Supplied(v))
  }

  ghost function Middle(v: RequestValue): string {
    Top(v) + Lines(v.fields)
  }

  ghost function Bottom(v: RequestValue): string {
    Middle(v) + Lines(BodyFields(v))
  }

  /** The head as it grows piece by piece. */
  lemma HeadGrows(v: RequestValue)
    ensures Head(v) == Bottom(v) + CRLF
    ensures v.octets == [] ==> Bottom(v) == Middle(v)
    ensures v.octets != [] ==> Lines(BodyFields(v)) == BodyLinesText(v.contentType, |v.octets|)
  {
    LinesAppend(Supplied(v) + v.fields, BodyFields(v));
    LinesAppend(Supplied(v), v.fields);
    BodyLines(v);
    Regroup(RequestLine(v) + CRLF, Lines(Supplied(v)), Lines(v.fields), Lines(BodyFields(v)));
  }

  lemma Regroup(a: string, b: string, c: string, d: string)
    ensures a + (b + c + d) == a + b + c + d
  {}

  lemma BodyLines(v: RequestValue)
    ensures v.octets == [] ==> Lines(BodyFields(v)) == ""
    ensures v.octets != [] ==> Lines(BodyFields(v)) == BodyLinesText(v.contentType, |v.octets|)
  {
    var contentType, length := Field("Content-Type", v.contentType), Field("Content-Length", Dec(|v.octets|));
    LinesAppend([contentType], [length]);
    LinesOne(contentType);
    LinesOne(length);
    assert [contentType] + [length] == [contentType, length];
  }

  /** memcpy of the body behind the head. */
  method CopyBody(body: array<char>, n: nat, buffer: array<char>, offset: nat, ghost size: nat)
    requires body != buffer && n <= body.Length && offset + n <= size <= buffer.Length
    modifies buffer
    ensures buffer[..offset + n] == old(buffer[..offset]) + body[..n]
    ensures buffer[size..] == old(buffer[size..])
  {
    forall k | 0 <= k < n {
      buffer[offset + k] := body[k];
    }
  }
}
