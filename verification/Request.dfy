/** The request structure: its value, the step each call takes on it, and the calls on the fixed buffers. */
module Request {
  import opened CText
  import opened HeaderTable

  const METHOD_SIZE := 16
  const URL_SIZE := 512
  const TYPE_SIZE := 64

  /** What the fields of a request mean; `octets` is the body the builder would send. */
  datatype RequestValue = RequestValue(
    verb: string, url: string, contentType: string, octets: seq<char>, fields: seq<Field>)

  predicate ValidMethod(verb: string) {
    verb in {"get", "post", "put", "delete", "patch", "head"}
  }

  predicate ValidContentType(t: string) {
    t in {"text/plain", "application/json", "application/xml", "application/octet-stream"}
  }

  datatype Op =
    | Init(verb: string, url: string)
    | SetHeader(key: string, value: string)
    | SetBody(octets: seq<char>, contentType: Option<string>)
    | Free

  function Initial(verb: string, url: string): RequestValue {
    RequestValue(Cut(verb, METHOD_SIZE), Cut(url, URL_SIZE), "text/plain", [], [])
  }

  /** The call returns 0. */
  predicate Accepted(v: RequestValue, op: Op) {
    match op
    case Init(verb, _) => ValidMethod(verb)
    case SetHeader(key, _) => !Refused(v.fields, key)
    case SetBody(_, t) => t.Some? ==> ValidContentType(t.value)
    case Free => true
  }

  /** The value after the call; a refused call changes nothing. */
  function Step(v: RequestValue, op: Op): RequestValue {
    if !Accepted(v, op) then v
    else
      match op
      case Init(verb, url) => Initial(verb, url)
      case SetHeader(key, value) => v.(fields := SetField(v.fields, key, value))
      case SetBody(octets, None) => v.(octets := octets)
      case SetBody(octets, Some(t)) => v.(octets := octets, contentType := Cut(t, TYPE_SIZE))
      case Free => v.(octets := [], fields := [])
  }

  function Run(v: RequestValue, ops: seq<Op>): RequestValue {
    if ops == [] then v else Step(Run(v, ops[..|ops| - 1]), ops[|ops| - 1])
  }

  /** fossil_net_request_t. The body stays the caller's; `null` is C's NULL. */
  class Record {
    const verb: array<char>
    const url: array<char>
    const contentType: array<char>
    const headers: array<char>
    var headerCount: nat
    var body: array?<char>
    var bodySize: nat

    /** The uninitialised storage of the structure. */
    constructor ()
      ensures Storage()
      ensures fresh(verb) && fresh(url) && fresh(contentType) && fresh(headers)
    {
      verb := new char[METHOD_SIZE];
      url := new char[URL_SIZE];
      contentType := new char[TYPE_SIZE];
      headers := new char[TABLE_SIZE];
    }

    predicate Storage() {
      && verb.Length == METHOD_SIZE && url.Length == URL_SIZE
      && contentType.Length == TYPE_SIZE && headers.Length == TABLE_SIZE
      && verb != url && verb != contentType && verb != headers
      && url != contentType && url != headers && contentType != headers
    }

    ghost predicate Valid()
      reads this, verb, url, contentType, headers
    {
      && Storage()
      && '\0' in verb[..] && '\0' in url[..] && '\0' in contentType[..]
      && headerCount <= MAX_HEADERS && RowsTerminated(headers[..], headerCount)
      && bodySize < UINT32 && (body != null ==> bodySize <= body.Length && body !in Buffers())
    }

    function Buffers(): set<array<char>> {
      {verb, url, contentType, headers}
    }

    ghost function Octets(): seq<char>
      requires body != null ==> bodySize <= body.Length
      reads this, body
    {
      if body != null then body[..bodySize] else []
    }

    ghost function View(): RequestValue
      requires Valid()
      reads this, verb, url, contentType, headers, body
    {
      RequestValue(CStr(verb[..]), CStr(url[..]), CStr(contentType[..]), Octets(), Rows(headers[..], headerCount))
    }

    method Init(newVerb: Option<string>, newUrl: Option<string>) returns (rc: int)
      requires Storage()
      requires (newVerb.Some? ==> '\0' !in newVerb.value) && (newUrl.Some? ==> '\0' !in newUrl.value)
      modifies this, verb, url, contentType, headers
      ensures rc == if newVerb.Some? && newUrl.Some? && ValidMethod(newVerb.value) then 0 else -1
      ensures rc == 0 ==> Valid() && body == null && View() == Initial(newVerb.value, newUrl.value)
      ensures rc != 0 ==> unchanged(this, verb, url, contentType, headers)
    {
      if newVerb.None? || newUrl.None? {
        return -1;
      }
      if !ValidMethod(newVerb.value) {
        return -1;
      }
      Zero(verb);
      Zero(url);
      Zero(contentType);
      Zero(headers);
      StoreText(verb, newVerb.value);
      StoreText(url, newUrl.value);
      StoreText(contentType, "text/plain");
      body, bodySize, headerCount := null, 0, 0;
      assert Cut("text/plain", TYPE_SIZE) == "text/plain";
      return 0;
    }

    method SetHeader(key: Option<string>, value: Option<string>) returns (rc: int)
      requires Valid()
      requires (key.Some? ==> '\0' !in key.value) && (value.Some? ==> '\0' !in value.value)
      modifies this`headerCount, headers
      ensures Valid()
      ensures key.None? || value.None? ==> rc == -1 && View() == old(View())
      ensures key.Some? && value.Some? ==>
                var op := Op.SetHeader(key.value, value.value);
                rc == (if Accepted(old(View()), op) then 0 else -1) && View() == Step(old(View()), op)
    {
      if key.None? || value.None? {
        return -1;
      }
      ghost var before := View();
      rc := SetRow(key.value, value.value);
      assert View() == before.(fields := Rows(headers[..], headerCount));
    }

    method SetRow(key: string, value: string) returns (rc: int)
      requires Storage() && headerCount <= MAX_HEADERS && RowsTerminated(headers[..], headerCount)
      requires '\0' !in key && '\0' !in value
      modifies this`headerCount, headers
      ensures headerCount <= MAX_HEADERS && RowsTerminated(headers[..], headerCount)
      ensures var fs := old(Rows(headers[..], headerCount));
              Rows(headers[..], headerCount) == SetField(fs, key, value) && rc == if Refused(fs, key) then -1 else 0
    {
      var i := FindRow(headers, headerCount, key);
      if i < headerCount {
        PutValue(headers, headerCount, i, value);
        return 0;
      }
      if headerCount >= MAX_HEADERS {
        return -1;
      }
      PutRow(headers, headerCount, key, value);
      headerCount := headerCount + 1;
      return 0;
    }

    method SetBody(data: array?<char>, size: nat, newType: Option<string>) returns (rc: int)
      requires Valid() && size < UINT32
      requires data != null ==> size <= data.Length && data !in Buffers()
      requires newType.Some? ==> '\0' !in newType.value
      modifies this, contentType
      ensures Valid()
      ensures var op := Op.SetBody(if data != null then data[..size] else [], newType);
              rc == (if Accepted(old(View()), op) then 0 else -1) && View() == Step(old(View()), op)
    {
      if newType.Some? && !ValidContentType(newType.value) {
        return -1;
      }
      body, bodySize := data, size;
      if newType.Some? {
        StoreText(contentType, newType.value);
      }
      return 0;
    }

    /** fossil_net_request_free: the body is the caller's and is only forgotten. */
    method Free()
      requires Valid()
      modifies this
      ensures Valid() && View() == Step(old(View()), Op.Free)
    {
      body, bodySize, headerCount := null, 0, 0;
    }
  }

  method Zero(a: array<char>)
    modifies a
    ensures forall k | 0 <= k < a.Length :: a[k] == '\0'
  {
    forall k | 0 <= k < a.Length {
      a[k] := '\0';
    }
  }
}
