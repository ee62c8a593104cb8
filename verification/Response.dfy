/** The response parser: status line, header lines up to the blank line, and what it keeps as body. */
module Response {
  import opened CText
  import opened Decimal
  import opened HeaderTable

  /** Where a scanset conversion with a width stops. */
  function ScanSet(text: string, cls: CharClass, p: nat, width: nat): (e: nat)
    requires p <= |text|
    ensures p <= e <= |text| && e <= p + width
  {
    if SpanFrom(text, cls, p) <= p + width then SpanFrom(text, cls, p) else p + width
  }

  /** The value behind a colon and any white space. */
  function ScanValue(text: string, p: nat): string
    requires p <= |text|
  {
    var q := SpanFrom(text, Spaces, p);
    text[q..ScanSet(text, Except({'\r', '\n'}), q, VALUE_SIZE - 1)]
  }

  /** sscanf at `p` with "%63[^:]: %255[^\r\n]", both buffers empty before. */
  function ScanHeader(text: string, p: nat): Field
    requires p <= |text|
  {
    var e := ScanSet(text, Except({':'}), p, KEY_SIZE - 1);
    if p < e < |text| && text[e] == ':' then Field(text[p..e], ScanValue(text, e + 1))
    else Field(text[p..e], "")
  }

  /** sscanf with "HTTP/%*s %d". */
  function ScanStatus(s: string): Option<int> {
    if !At(s, "HTTP/", 0) then None
    else
      var q := SpanFrom(s, Spaces, 5);
      var e := SpanFrom(s, NonSpaces, q);
      if e == q then None else ScanInt(s, e)
  }

  /** The header lines from `p` to the blank line or the end of the text. */
  function FieldsFrom(text: string, p: nat): seq<Field>
    requires p <= |text|
    decreases |text| - p
  {
    if p == |text| || At(text, CRLF, p) then []
    else
      match FindFrom(text, CRLF, p)
      case Absent => [ScanHeader(text, p)]
      case Place(i) => [ScanHeader(text, p)] + FieldsFrom(text, i + 2)
  }

  /** Where the scan of the header lines stops, unless it runs out of line ends. */
  function StopFrom(text: string, p: nat): Index
    requires p <= |text|
    decreases |text| - p
  {
    if p == |text| || At(text, CRLF, p) then Place(p)
    else
      match FindFrom(text, CRLF, p)
      case Absent => Absent
      case Place(i) => StopFrom(text, i + 2)
  }

  function Kept32(fs: seq<Field>): seq<Field> {
    if |fs| <= MAX_HEADERS then fs else fs[..MAX_HEADERS]
  }

  /** What a parse leaves behind; `body` is None for a NULL body. */
  datatype ResponseValue = ResponseValue(rc: int, status: int, fields: seq<Field>, body: Option<seq<char>>)

  /** The received octets hold a C string no longer than what was received. */
  predicate Received(mem: seq<char>, size: nat) {
    |CStr(mem)| < |mem| && |CStr(mem)| <= size <= |mem|
  }

  /**
    The text the parser can scan to an end: it has no line end at all, or a blank line, or stops right behind a
    line end.
   */
  predicate Scannable(text: string) {
    || Find(text, CRLF).Absent?
    || Find(text, BLANK).Place?
    || At(text, CRLF, |text| - 2)
  }

  function StatusOf(text: string): int {
    match ScanStatus(text)
    case None => 0
    case Some(n) => n
  }

  /** The fields kept from a text: the first 32 header lines. */
  function FieldsOf(text: string): seq<Field> {
    match Find(text, CRLF)
    case Absent => []
    case Place(i) => Kept32(FieldsFrom(text, i + 2))
  }

  /** Where the header lines of a text end. */
  function HeadersEnd(text: string): Index {
    match Find(text, CRLF)
    case Absent => Absent
    case Place(i) => StopFrom(text, i + 2)
  }

  /** Where the kept body starts: behind the first blank line at or after the end of the header lines. */
  function BodyStart(text: string): (r: Index)
    ensures r.Place? ==> r.index <= |text|
  {
    match HeadersEnd(text)
    case Absent => Absent
    case Place(stop) =>
      StopsInsideText(text);
      match FindFrom(text, BLANK, stop)
      case Absent => Absent
      case Place(j) => Place(j + 4)
  }

  /** What fossil__http_parse_response computes. */
  function ParseResponse(mem: seq<char>, size: nat): ResponseValue
    requires Received(mem, size)
  {
    var text := CStr(mem);
    ResponseValue(
      if Find(text, CRLF).Absent? then -1 else 0,
      StatusOf(text),
      FieldsOf(text),
      BodyIn(mem, size))
  }

  /** The octets kept as body. */
  function BodyIn(mem: seq<char>, size: nat): Option<seq<char>>
    requires Received(mem, size)
  {
    match BodyStart(CStr(mem))
    case Absent => None
    case Place(b) => Some(mem[b..size])
  }

  /** The scan moves forward and stops inside the text, at its end or at a line end. */
  lemma {:induction false} StopsInside(text: string, p: nat)
    requires p <= |text|
    ensures var stop := StopFrom(text, p);
            stop.Place? ==> p <= stop.index <= |text| && (stop.index == |text| || At(text, CRLF, stop.index))
    decreases |text| - p
  {
    if p < |text| && !At(text, CRLF, p) && FindFrom(text, CRLF, p).Place? {
      StopsInside(text, FindFrom(text, CRLF, p).index + 2);
    }
  }

  lemma StopsInsideText(text: string)
    ensures HeadersEnd(text).Place? ==> HeadersEnd(text).index <= |text|
  {
    if Find(text, CRLF).Place? {
      StopsInside(text, Find(text, CRLF).index + 2);
    }
  }

  /** From behind a line end, the scan ends exactly when a blank line or the end of the text lies behind a line end. */
  lemma {:induction false} ScanEndsFrom(text: string, p: nat)
    requires 2 <= p <= |text| && At(text, CRLF, p - 2)
    requires forall j: nat | j < p - 2 :: !At(text, BLANK, j)
    ensures StopFrom(text, p).Place? <==> Find(text, BLANK).Place? || At(text, CRLF, |text| - 2)
    decreases |text| - p
  {
    AtCrlf(text, p - 2);
    AtCrlf(text, p - 1);
    AtBlank(text, p - 2);
    AtBlank(text, p - 1);
    FindFirst(text, BLANK);
    FindFromFirst(text, CRLF, p);
    if p == |text| {
    } else if At(text, CRLF, p) {
      assert At(text, BLANK, p - 2);
    } else {
      match FindFrom(text, CRLF, p) {
        case Absent =>
          forall j: nat ensures !At(text, BLANK, j) {
            AtBlank(text, j);
          }
        case Place(i) =>
          forall j: nat | j < i ensures !At(text, BLANK, j) {
            AtBlank(text, j);
          }
          ScanEndsFrom(text, i + 2);
      }
    }
  }

  /** The parser's scan comes to an end exactly on scannable texts. */
  lemma ScanEnds(text: string)
    requires Find(text, CRLF).Place?
    ensures HeadersEnd(text).Place? <==> Scannable(text)
  {
    var i := Find(text, CRLF).index;
    FindFirst(text, CRLF);
    forall j: nat | j < i ensures !At(text, BLANK, j) {
      AtBlank(text, j);
    }
    ScanEndsFrom(text, i + 2);
  }

  lemma ScanHeaderFits(text: string, p: nat)
    requires '\0' !in text && p <= |text|
    ensures var f := ScanHeader(text, p);
            '\0' !in f.key && '\0' !in f.value && Kept(f.key, f.value) == f
  {}

  /** A buffer into whose first `size` octets a value was copied. */
  lemma CopiedOut(before: seq<char>, after: seq<char>, value: string, size: nat)
    requires 0 < size <= |before| && after == Overwrite(before, 0, Cut(value, size) + ['\0'])
    ensures var n := if |value| < size then |value| else size - 1;
            after[..n] == value[..n] && after[n] == '\0' && after[n + 1..] == before[n + 1..]
  {
    hide Overwrite;
    var n := if |value| < size then |value| else size - 1;
    assert Cut(value, size) == value[..n];
  }

  lemma CopiedText(before: seq<char>, after: seq<char>, value: string, size: nat)
    requires 0 < size <= |before| && '\0' !in value && after == Overwrite(before, 0, Cut(value, size) + ['\0'])
    ensures CStr(after[..size]) == Prefix(value, size - 1)
  {
    hide Overwrite, CStr;
    CStrStored(before, 0, value, size);
    assert after[..size] == after[0..size];
    assert Cut(value, size) == Prefix(value, size - 1);
  }

  /** The value in the first row with the key. */
  method FindValue(table: array<char>, count: nat, key: string) returns (found: Option<string>)
    requires table.Length == TABLE_SIZE && count <= MAX_HEADERS
    ensures found == Lookup(Rows(table[..], count), key) && (found.Some? ==> '\0' !in found.value)
  {
    var i := FindRow(table, count, key);
    RowsAre(table[..], count);
    found := if i < count then Some(CStr(ValueBytes(table[..], i))) else None;
  }

  /** A value copied into the first `size` octets of a caller's buffer. */
  method CopyValue(buffer: array<char>, value: string, size: nat)
    requires size <= buffer.Length && '\0' !in value
    modifies buffer
    ensures size == 0 ==> buffer[..] == old(buffer[..])
    ensures size > 0 ==>
              var n := if |value| < size then |value| else size - 1;
              buffer[..n] == value[..n] && buffer[n] == '\0' && buffer[n + 1..] == old(buffer[n + 1..])
    ensures size > 0 ==> CStr(buffer[..size]) == Prefix(value, size - 1)
  {
    ghost var before := buffer[..];
    SafeCopy(buffer, 0, Some(value), size);
    if size > 0 {
      CopiedOut(before, buffer[..], value, size);
      CopiedText(before, buffer[..], value, size);
    }
  }

  // ---------------------------------------------------------------- the parser on its structure

  /** fossil_net_response_t. */
  class Record {
    var status: int
    const contentType: array<char>
    var body: array?<char>
    var bodySize: nat
    const headers: array<char>
    var headerCount: nat

    constructor ()
      ensures Storage() && fresh(contentType) && fresh(headers)
    {
      contentType := new char[64];
      headers := new char[TABLE_SIZE];
    }

    predicate Storage() {
      contentType.Length == 64 && headers.Length == TABLE_SIZE && contentType != headers
    }

    ghost predicate Valid()
      reads this, headers
    {
      && Storage()
      && headerCount <= MAX_HEADERS && RowsTerminated(headers[..], headerCount)
      && (body == null ==> bodySize == 0) && (body != null ==> bodySize == body.Length)
    }

    ghost function View(rc: int): ResponseValue
      requires Valid()
      reads this, headers, body
    {
      ResponseValue(rc, status, Rows(headers[..], headerCount), if body == null then None else Some(body[..]))
    }

    /** fossil_net_response_get_header. */
    method GetHeader(key: Option<string>, buffer: array?<char>, size: nat) returns (rc: int)
      requires Valid() && (key.Some? ==> '\0' !in key.value)
      requires buffer != null ==> size <= buffer.Length && buffer != headers && buffer != body
      modifies buffer
      ensures Valid() && View(rc) == old(View(rc))
      ensures key.None? || buffer == null ==> rc == -1
      ensures key.Some? && buffer != null ==>
                match Lookup(old(View(0)).fields, key.value)
                case None => rc == -1 && buffer[..] == old(buffer[..])
                case Some(value) => rc == 0 && (size == 0 ==> buffer[..] == old(buffer[..]))
      ensures rc == 0 && size > 0 ==>
                var value := Lookup(old(View(0)).fields, key.value).value;
                var n := if |value| < size then |value| else size - 1;
                buffer[..n] == value[..n] && buffer[n] == '\0' && buffer[n + 1..] == old(buffer[n + 1..])
      ensures rc == 0 && size > 0 ==>
                CStr(buffer[..size]) == Prefix(Lookup(old(View(0)).fields, key.value).value, size - 1)
    {
      if key.None? || buffer == null {
        return -1;
      }
      hide Lookup, Rows, CStr, Prefix;
      var found := FindValue(headers, headerCount, key.value);
      if found.Some? {
        CopyValue(buffer, found.value, size);
        return 0;
      }
      return -1;
    }

    /** fossil_net_response_free. */
    method Free()
      requires Valid()
      modifies this
      ensures Valid() && View(0) == ResponseValue(0, old(status), [], None)
    {
      body, bodySize, headerCount := null, 0, 0;
    }
  }

  /** fossil__http_parse_response. Memory is assumed available for the body. */
  method Parse(res: Record, buffer: array<char>, size: nat) returns (rc: int)
    requires res.Storage() && buffer != res.headers && buffer != res.contentType && size < UINT32
    requires Received(buffer[..], size) && Scannable(CStr(buffer[..])) && FitsInt(StatusOf(CStr(buffer[..])))
    modifies res, res.headers, res.contentType
    ensures res.Valid() && res.View(rc) == ParseResponse(buffer[..], size)
    ensures res.body != null ==> fresh(res.body)
  {
    var headers := ParseHead(res, CStr(buffer[..]));
    if headers.Absent? {
      return -1;
    }
    res.body := KeepBody(buffer, size, headers.index);
    res.bodySize := if res.body == null then 0 else res.body.Length;
    return 0;
  }

  /** The body behind the next blank line, copied out of the buffer. */
  method KeepBody(buffer: array<char>, size: nat, headers: nat) returns (body: array?<char>)
    requires Received(buffer[..], size) && HeadersEnd(CStr(buffer[..])) == Place(headers)
    requires headers <= |CStr(buffer[..])|
    ensures body != null ==> fresh(body)
    ensures (if body == null then None else Some(body[..])) == BodyIn(buffer[..], size)
  {
    var blank := FindFrom(CStr(buffer[..]), BLANK, headers);
    if blank.Absent? {
      return null;
    }
    body := CopyOut(buffer, blank.index + 4, size);
  }

  /** The status line and the header lines; returns where the scan stopped. */
  method ParseHead(res: Record, text: string) returns (headers: Index)
    requires res.Storage() && Scannable(text) && '\0' !in text
    modifies res, res.headers, res.contentType
    ensures res.Valid() && res.body == null && res.status == StatusOf(text)
    ensures Rows(res.headers[..], res.headerCount) == FieldsOf(text)
    ensures headers == HeadersEnd(text) && (headers.Place? ==> headers.index <= |text|)
    ensures headers.Absent? <==> Find(text, CRLF).Absent?
  {
    Clear(res);
    res.status := StatusOf(text);
    var statusEnd := Find(text, CRLF);
    if statusEnd.Absent? {
      return Absent;
    }
    ScanEnds(text);
    ghost var fs := FieldsFrom(text, statusEnd.index + 2);
    assert fs[..0] == [] && fs[0..] == fs && fs[..|fs|] == fs;
    var stop := ScanLines(res, text, statusEnd.index + 2, fs);
    return Place(stop);
  }

  /** malloc and memcpy. */
  method CopyOut(buffer: array<char>, start: nat, size: nat) returns (body: array<char>)
    requires start <= size <= buffer.Length
    ensures fresh(body) && body[..] == buffer[..][start..size]
  {
    body := new char[size - start];
    forall k | 0 <= k < size - start {
      body[k] := buffer[start + k];
    }
  }

  /** memset. */
  method Clear(res: Record)
    requires res.Storage()
    modifies res, res.headers, res.contentType
    ensures res.Valid() && res.View(0) == ResponseValue(0, 0, [], None)
  {
    forall k | 0 <= k < res.headers.Length {
      res.headers[k] := '\0';
    }
    forall k | 0 <= k < res.contentType.Length {
      res.contentType[k] := '\0';
    }
    res.status, res.body, res.bodySize, res.headerCount := 0, null, 0, 0;
  }

  /** The first `n` of the lines `fs` are in the table, and the scan stands at the next. */
  ghost predicate Scanned(res: Record, text: string, stop: Index, fs: seq<Field>, n: nat, headers: nat)
    reads res, res.headers
  {
    && res.Valid() && headers <= |text| && n <= |fs|
    && Rows(res.headers[..], res.headerCount) == Kept32(fs[..n])
    && FieldsFrom(text, headers) == fs[n..] && StopFrom(text, headers) == stop
  }

  /** The header loop; `headers` is the index the scan has reached. */
  method ScanLines(res: Record, text: string, from: nat, ghost fs: seq<Field>) returns (headers: nat)
    requires '\0' !in text && from <= |text| && StopFrom(text, from).Place?
    requires Scanned(res, text, StopFrom(text, from), fs, 0, from)
    modifies res`headerCount, res.headers
    ensures Scanned(res, text, StopFrom(text, from), fs, |fs|, headers) && StopFrom(text, from) == Place(headers)
  {
    ghost var stop := StopFrom(text, from);
    ghost var n := 0;
    headers := from;
    while headers < |text| && !At(text, CRLF, headers)
      invariant Scanned(res, text, stop, fs, n, headers)
      decreases |text| - headers
    {
      headers := ScanLine(res, text, headers, stop, fs, n);
      n := n + 1;
    }
    assert StopFrom(text, headers) == Place(headers) && FieldsFrom(text, headers) == [];
  }

  /** One turn of the loop: one line into the table, and on to the next. */
  method ScanLine(res: Record, text: string, headers: nat, ghost stop: Index, ghost fs: seq<Field>, ghost n: nat)
    returns (next: nat)
    requires '\0' !in text && headers < |text| && !At(text, CRLF, headers) && stop.Place?
    requires Scanned(res, text, stop, fs, n, headers)
    modifies res`headerCount, res.headers
    ensures Scanned(res, text, stop, fs, n + 1, next) && headers < next
  {
    NextLine(text, headers, fs, n);
    StoreField(res, ScanHeader(text, headers), fs, n);
    next := FindFrom(text, CRLF, headers).index + 2;
  }

  lemma NextLine(text: string, p: nat, fs: seq<Field>, n: nat)
    requires p < |text| && !At(text, CRLF, p) && StopFrom(text, p).Place?
    requires n <= |fs| && FieldsFrom(text, p) == fs[n..] && '\0' !in text
    ensures FindFrom(text, CRLF, p).Place? && n < |fs| && fs[n] == ScanHeader(text, p)
    ensures '\0' !in fs[n].key && '\0' !in fs[n].value && Kept(fs[n].key, fs[n].value) == fs[n]
    ensures FieldsFrom(text, FindFrom(text, CRLF, p).index + 2) == fs[n + 1..]
  {
    assert FieldsFrom(text, FindFrom(text, CRLF, p).index + 2) == FieldsFrom(text, p)[1..];
    ScanHeaderFits(text, p);
  }

  method StoreField(res: Record, f: Field, ghost fs: seq<Field>, ghost n: nat)
    requires n < |fs| && fs[n] == f && '\0' !in f.key && '\0' !in f.value && Kept(f.key, f.value) == f
    requires res.Valid() && Rows(res.headers[..], res.headerCount) == Kept32(fs[..n])
    modifies res`headerCount, res.headers
    ensures res.Valid() && Rows(res.headers[..], res.headerCount) == Kept32(fs[..n + 1])
  {
    if res.headerCount < MAX_HEADERS {
      PutRow(res.headers, res.headerCount, f.key, f.value);
      res.headerCount := res.headerCount + 1;
    }
  }
}
