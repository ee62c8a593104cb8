/** The text of every built request as lines: its mandatory fields, and when its parts are its lines. */
module RequestLaws {
  import opened CText
  import opened Decimal
  import opened Url
  import opened UrlLaws
  import opened HeaderTable
  import opened Request
  import opened RequestRuns
  import opened Render
  import opened ResponseLaws
  import opened TextLines

  // ---------------------------------------------------------------- mandatory fields

  function CountKey(fs: seq<Field>, key: string): nat {
    if fs == [] then 0 else CountKey(fs[..|fs| - 1], key) + if fs[|fs| - 1].key == key then 1 else 0
  }

  lemma {:induction false} CountAppend(fs: seq<Field>, gs: seq<Field>, key: string)
    ensures CountKey(fs + gs, key) == CountKey(fs, key) + CountKey(gs, key)
  {
    if gs == [] {
      assert fs + gs == fs;
    } else {
      assert (fs + gs)[..|fs + gs| - 1] == fs + gs[..|gs| - 1];
      CountAppend(fs, gs[..|gs| - 1], key);
    }
  }

  /** A short key occurs at most once in a table any run leaves. */
  lemma {:induction false} CountShort(fs: seq<Field>, key: string)
    requires |key| < KEY_SIZE - 1
    requires forall i, j | 0 <= i < j < |fs| && fs[i].key == fs[j].key :: |fs[i].key| == KEY_SIZE - 1
    ensures CountKey(fs, key) == if HasKey(fs, key) then 1 else 0
  {
    if fs != [] {
      var init, last := fs[..|fs| - 1], fs[|fs| - 1];
      CountShort(init, key);
      if HasKey(init, key) {
        assert fs[FindKey(init, key)].key == key;
        assert last.key != key;
      } else if last.key == key {
        assert FindKey(fs, key) == |fs| - 1 by {
          assert forall j | 0 <= j < |fs| - 1 :: fs[j] == init[j];
        }
      }
    }
  }

  /** Whatever the user set, exactly one Host and exactly one Connection field are emitted. */
  lemma MandatoryFields(verb: string, url: string, ops: seq<Op>)
    requires ValidMethod(verb)
    ensures var fs := Emitted(Run(Initial(verb, url), ops));
            CountKey(fs, "Host") == 1 && CountKey(fs, "Connection") == 1
  {
    var v := Run(Initial(verb, url), ops);
    RunKeepsInvariant(verb, url, ops);
    CountShort(v.fields, "Host");
    CountShort(v.fields, "Connection");
    OneOf(v, "Host");
    OneOf(v, "Connection");
  }

  lemma OneOf(v: RequestValue, key: string)
    requires key == "Host" || key == "Connection"
    ensures CountKey(Emitted(v), key) == CountKey(v.fields, key) + if HasKey(v.fields, key) then 0 else 1
  {
    CountAppend(Supplied(v) + v.fields, BodyFields(v), key);
    CountAppend(Supplied(v), v.fields, key);
    SuppliedOnce(v, key);
    NoneInBody(v, key);
  }

  lemma SuppliedOnce(v: RequestValue, key: string)
    requires key == "Host" || key == "Connection"
    ensures CountKey(Supplied(v), key) == if HasKey(v.fields, key) then 0 else 1
  {
    var host := if HasKey(v.fields, "Host") then [] else [HostField(v)];
    var connection := if HasKey(v.fields, "Connection") then [] else [Field("Connection", "close")];
    CountAppend(host, connection, key);
    CountOne(HostField(v), key);
    CountOne(Field("Connection", "close"), key);
  }

  lemma CountOne(f: Field, key: string)
    ensures CountKey([f], key) == if f.key == key then 1 else 0
  {
    assert [f][..0] == [];
  }

  lemma NoneInBody(v: RequestValue, key: string)
    requires key == "Host" || key == "Connection"
    ensures CountKey(BodyFields(v), key) == 0
  {
    if v.octets != [] {
      var t, l := Field("Content-Type", v.contentType), Field("Content-Length", Dec(|v.octets|));
      assert BodyFields(v) == [t] + [l];
      CountAppend([t], [l], key);
      CountOne(t, key);
      CountOne(l, key);
    }
  }

  // ---------------------------------------------------------------- the text and its lines

  /** What a run leaves in the structure: a known method and content type, and C strings. */
  ghost predicate Stored(v: RequestValue) {
    && ValidMethod(v.verb) && ValidContentType(v.contentType) && '\0' !in v.url
    && forall i | 0 <= i < |v.fields| :: '\0' !in v.fields[i].key && '\0' !in v.fields[i].value
  }

  /** The arguments of a call are C strings. */
  predicate TextOp(op: Op) {
    match op
    case Init(verb, url) => '\0' !in verb && '\0' !in url
    case SetHeader(key, value) => '\0' !in key && '\0' !in value
    case SetBody(_, t) => t.Some? ==> '\0' !in t.value
    case Free => true
  }

  predicate TextOps(ops: seq<Op>) {
    forall i | 0 <= i < |ops| :: TextOp(ops[i])
  }

  lemma StepStored(v: RequestValue, op: Op)
    requires Stored(v) && TextOp(op)
    ensures Stored(Step(v, op))
  {}

  lemma {:induction false} RunStored(verb: string, url: string, ops: seq<Op>)
    requires ValidMethod(verb) && '\0' !in url && TextOps(ops)
    ensures Stored(Run(Initial(verb, url), ops))
  {
    if ops != [] {
      RunStored(verb, url, ops[..|ops| - 1]);
      StepStored(Run(Initial(verb, url), ops[..|ops| - 1]), ops[|ops| - 1]);
    }
  }

  /** Neither the start line nor an emitted field holds a line end. */
  predicate Unsplit(v: RequestValue) {
    OneLine(RequestLine(v)) && AllOneLine(Contents(Emitted(v)))
  }

  lemma TargetOneLine(v: RequestValue)
    requires ValidMethod(v.verb)
    ensures OneLine(RequestLine(v)) <==> OneLine(TargetPath(v))
  {
    hide OneLine, TargetPath;
    var path := TargetPath(v);
    assert RequestLine(v) == v.verb + " " + (path + " " + "HTTP/1.1");
    OneLineGlued(v.verb, " ", path + " " + "HTTP/1.1");
    OneLineGlued(path, " ", "HTTP/1.1");
    NoEndInside(v.verb);
    NoEndInside("HTTP/1.1");
  }

  lemma NoEndInside(s: string)
    requires '\r' !in s
    ensures OneLine(s)
  {
    NoCrlf(s);
  }

  /** In terms of the target, the keys and the values. */
  lemma UnsplitMeans(v: RequestValue)
    requires ValidMethod(v.verb)
    ensures Unsplit(v) <==>
            OneLine(TargetPath(v))
            && forall i | 0 <= i < |Emitted(v)| :: OneLine(Emitted(v)[i].key) && OneLine(Emitted(v)[i].value)
  {
    hide OneLine, Emitted, RequestLine, TargetPath;
    TargetOneLine(v);
    var fs := Emitted(v);
    forall i | 0 <= i < |fs| ensures OneLine(Contents(fs)[i]) <==> OneLine(fs[i].key) && OneLine(fs[i].value) {
      assert Contents(fs)[i] == fs[i].key + ": " + fs[i].value;
      OneLineGlued(fs[i].key, ": ", fs[i].value);
    }
    if AllOneLine(Contents(fs)) {
      assert forall i | 0 <= i < |fs| :: OneLine(Contents(fs)[i]);
    }
  }

  lemma RenderedParts(v: RequestValue)
    ensures Rendered(v) == RequestLine(v) + CRLF + (Lines(Emitted(v)) + CRLF + v.octets)
    ensures Head(v) == RequestLine(v) + CRLF + (Lines(Emitted(v)) + CRLF + "")
    ensures |Head(v)| == |RequestLine(v)| + |Lines(Emitted(v))| + 4
  {
    hide RequestLine, Lines, Emitted;
    HeadGlue(RequestLine(v), Lines(Emitted(v)), v.octets);
    HeadGlue(RequestLine(v), Lines(Emitted(v)), "");
    assert Head(v) + "" == Head(v);
  }

  lemma HeadGlue(a: string, b: string, c: string)
    ensures a + CRLF + b + CRLF + c == a + CRLF + (b + CRLF + c)
  {}

  /** The lines of the head are the start line, the emitted fields, and nothing twice, exactly when none is split. */
  lemma LinesAsSent(v: RequestValue)
    ensures Split(Head(v)) == [RequestLine(v)] + Contents(Emitted(v)) + ["", ""] <==> Unsplit(v)
  {
    hide RequestLine, Emitted, Head, Split, Pieces, OneLine, AllOneLine;
    var fs := Emitted(v);
    RenderedParts(v);
    SplitMessage(RequestLine(v), fs, "");
    EmptyLine();
    assert [""] + [""] == ["", ""];
    PiecesWhole(fs);
    SplitOne(RequestLine(v));
    if Split(Head(v)) == [RequestLine(v)] + Contents(fs) + ["", ""] {
      assert |Split(RequestLine(v))| + |Pieces(fs)| == 1 + |fs|;
    }
  }

  /** All lines between the start of the text and the blank line of the head, first one excepted. */
  function HeaderPieces(v: RequestValue): seq<string> {
    Split(RequestLine(v))[1..] + Pieces(Emitted(v))
  }

  lemma RenderedLines(v: RequestValue)
    ensures Split(Rendered(v))[0] == Split(RequestLine(v))[0]
    ensures Split(Rendered(v))[1..] == HeaderPieces(v) + ([""] + Split(v.octets))
  {
    hide RequestLine, Emitted, Rendered, Head, Split, Pieces;
    RenderedParts(v);
    SplitMessage(RequestLine(v), Emitted(v), v.octets);
    LinesGlue(Split(RequestLine(v)), Pieces(Emitted(v)), [""] + Split(v.octets));
  }

  lemma LinesGlue(a: seq<string>, b: seq<string>, c: seq<string>)
    requires a != []
    ensures (a + b + c)[0] == a[0] && (a + b + c)[1..] == a[1..] + b + c
  {}

  /** The header lines of any built request, line ends inside its parts included. */
  lemma HeaderLinesRead(v: RequestValue)
    ensures HeaderLines(Rendered(v)) == BeforeEmpty(HeaderPieces(v))
  {
    hide HeaderPieces, Split, Rendered;
    RenderedLines(v);
    BeforeEmptyAppend(HeaderPieces(v), [""] + Split(v.octets));
  }

  lemma UnsplitPieces(v: RequestValue)
    requires Unsplit(v)
    ensures HeaderPieces(v) == Contents(Emitted(v)) && HeaderLines(Rendered(v)) == Contents(Emitted(v))
  {
    hide RequestLine, Emitted, Rendered, Split, Pieces, OneLine, AllOneLine, HeaderLines;
    SplitOne(RequestLine(v));
    PiecesWhole(Emitted(v));
    HeaderLinesRead(v);
    NoneEmpty(Emitted(v));
    BeforeEmptyAll(Contents(Emitted(v)));
  }

  lemma NoneEmpty(fs: seq<Field>)
    ensures "" !in Contents(fs)
  {}

  // ---------------------------------------------------------------- header lines by name

  function CountPrefixed(fs: seq<Field>, prefix: string): nat {
    if fs == [] then 0 else CountPrefixed(fs[..|fs| - 1], prefix) + if prefix <= fs[|fs| - 1].key then 1 else 0
  }

  lemma {:induction false} PrefixedAppend(fs: seq<Field>, gs: seq<Field>, prefix: string)
    ensures CountPrefixed(fs + gs, prefix) == CountPrefixed(fs, prefix) + CountPrefixed(gs, prefix)
  {
    if gs == [] {
      assert fs + gs == fs;
    } else {
      assert (fs + gs)[..|fs + gs| - 1] == fs + gs[..|gs| - 1];
      PrefixedAppend(fs, gs[..|gs| - 1], prefix);
    }
  }

  lemma {:induction false} NonePrefixed(fs: seq<Field>, name: string)
    requires forall i | 0 <= i < |fs| :: ':' !in fs[i].key
    ensures CountPrefixed(fs, name + ":") == 0
  {
    if fs != [] {
      NonePrefixed(fs[..|fs| - 1], name);
      PrefixColon(name, fs[|fs| - 1].key);
    }
  }

  lemma PrefixColon(name: string, key: string)
    ensures name + ":" <= key ==> ':' in key
  {
    if name + ":" <= key {
      assert key[|name|] == (name + ":")[|name|];
    }
  }

  /** A field's line has the name exactly for the key itself, or the key with a colon and more behind it. */
  lemma NameOfLine(f: Field, name: string)
    requires ':' !in name
    ensures Name(Content(f)) == name <==> f.key == name || name + ":" <= f.key
  {
    var colon := IndexOf(f.key, ':');
    ColonOf(f);
    IndexFirst(f.key, ':');
    assert Name(Content(f)) == f.key[..colon];
    if name + ":" <= f.key {
      assert f.key[|name|] == (name + ":")[|name|];
      assert forall j | 0 <= j < |name| :: f.key[j] == (name + ":")[j] == name[j];
      IndexOfIs(f.key, ':', |name|);
    } else if colon < |f.key| {
      assert f.key[..colon + 1] == f.key[..colon] + ":";
    }
  }

  lemma {:induction false} CountLines(fs: seq<Field>, name: string)
    requires ':' !in name
    ensures CountNamed(Contents(fs), name) == CountKey(fs, name) + CountPrefixed(fs, name + ":")
  {
    hide Content, Name;
    if fs != [] {
      var init, last := fs[..|fs| - 1], fs[|fs| - 1];
      CountLines(init, name);
      assert Contents(fs)[..|fs| - 1] == Contents(init);
      NameOfLine(last, name);
      assert last.key == name ==> !(name + ":" <= last.key);
    }
  }

  lemma OnlyUsersPrefixed(v: RequestValue, name: string)
    ensures CountPrefixed(Emitted(v), name + ":") == CountPrefixed(v.fields, name + ":")
  {
    hide Supplied, BodyFields;
    PrefixedAppend(Supplied(v) + v.fields, BodyFields(v), name + ":");
    PrefixedAppend(Supplied(v), v.fields, name + ":");
    OwnKeys(v);
    NonePrefixed(Supplied(v), name);
    NonePrefixed(BodyFields(v), name);
  }

  /** The builder's own keys hold no colon. */
  lemma OwnKeys(v: RequestValue)
    ensures forall i | 0 <= i < |Supplied(v)| :: ':' !in Supplied(v)[i].key && 0 < |Supplied(v)[i].key| < KEY_SIZE
    ensures forall i | 0 <= i < |BodyFields(v)| :: ':' !in BodyFields(v)[i].key
  {
    hide HostField, Dec;
    HostKey(v);
  }

  lemma HostKey(v: RequestValue)
    ensures HostField(v).key == "Host"
  {}

  /** How many header lines of the text have a name, if no part is split. */
  lemma LinesNamed(v: RequestValue, name: string)
    requires Unsplit(v) && ':' !in name
    ensures CountNamed(HeaderLines(Rendered(v)), name)
         == CountKey(Emitted(v), name) + CountPrefixed(v.fields, name + ":")
  {
    hide Unsplit, Emitted, Rendered, HeaderLines, HeaderPieces;
    UnsplitPieces(v);
    CountLines(Emitted(v), name);
    OnlyUsersPrefixed(v, name);
  }

  /** Over every run that splits no line: one Host and one Connection line, and one for each key that poses as one. */
  lemma MandatoryLines(verb: string, url: string, ops: seq<Op>)
    requires ValidMethod(verb) && Unsplit(Run(Initial(verb, url), ops))
    ensures var v := Run(Initial(verb, url), ops);
            && CountNamed(HeaderLines(Rendered(v)), "Host") == 1 + CountPrefixed(v.fields, "Host:")
            && CountNamed(HeaderLines(Rendered(v)), "Connection") == 1 + CountPrefixed(v.fields, "Connection:")
  {
    hide Unsplit, HeaderLines, Rendered, Run, Emitted;
    var v := Run(Initial(verb, url), ops);
    MandatoryFields(verb, url, ops);
    LinesNamed(v, "Host");
    LinesNamed(v, "Connection");
    assert "Host" + ":" == "Host:" && "Connection" + ":" == "Connection:";
  }

  /** Over every run: one Content-Length for the body, and one more if the user set one. */
  lemma LengthFields(verb: string, url: string, ops: seq<Op>)
    requires ValidMethod(verb)
    ensures var v := Run(Initial(verb, url), ops);
            CountKey(Emitted(v), "Content-Length")
            == (if HasKey(v.fields, "Content-Length") then 1 else 0) + (if v.octets == [] then 0 else 1)
  {
    var v, key := Run(Initial(verb, url), ops), "Content-Length";
    RunKeepsInvariant(verb, url, ops);
    CountShort(v.fields, key);
    CountAppend(Supplied(v) + v.fields, BodyFields(v), key);
    CountAppend(Supplied(v), v.fields, key);
    LengthNotSupplied(v);
    LengthOfBody(v);
  }

  lemma LengthNotSupplied(v: RequestValue)
    ensures CountKey(Supplied(v), "Content-Length") == 0 && !HasKey(Supplied(v), "Content-Length")
  {
    var host := if HasKey(v.fields, "Host") then [] else [HostField(v)];
    var connection := if HasKey(v.fields, "Connection") then [] else [Field("Connection", "close")];
    CountAppend(host, connection, "Content-Length");
    CountOne(HostField(v), "Content-Length");
    CountOne(Field("Connection", "close"), "Content-Length");
  }

  lemma LengthOfBody(v: RequestValue)
    ensures CountKey(BodyFields(v), "Content-Length") == if v.octets == [] then 0 else 1
    ensures Lookup(BodyFields(v), "Content-Length") == if v.octets == [] then None else Some(Dec(|v.octets|))
  {
    if v.octets != [] {
      var t, l := Field("Content-Type", v.contentType), Field("Content-Length", Dec(|v.octets|));
      assert BodyFields(v) == [t] + [l] && BodyFields(v)[1] == l;
      CountAppend([t], [l], "Content-Length");
      CountOne(t, "Content-Length");
      CountOne(l, "Content-Length");
    }
  }

  /** Over every run that splits no line: the Content-Length lines of the text. */
  lemma LengthLines(verb: string, url: string, ops: seq<Op>)
    requires ValidMethod(verb) && Unsplit(Run(Initial(verb, url), ops))
    ensures var v := Run(Initial(verb, url), ops);
            CountNamed(HeaderLines(Rendered(v)), "Content-Length")
            == (if HasKey(v.fields, "Content-Length") then 1 else 0) + (if v.octets == [] then 0 else 1)
               + CountPrefixed(v.fields, "Content-Length:")
  {
    hide Unsplit, HeaderLines, Rendered, Run, Emitted;
    LengthFields(verb, url, ops);
    LinesNamed(Run(Initial(verb, url), ops), "Content-Length");
    assert "Content-Length" + ":" == "Content-Length:";
  }

  // ---------------------------------------------------------------- parts without line ends

  lemma BodyOneLine(v: RequestValue)
    requires ValidContentType(v.contentType)
    ensures AllOneLine(Contents(BodyFields(v)))
  {
    hide OneLine, Content;
    if v.octets != [] {
      DecReads(|v.octets|);
      TypeLine(v.contentType);
      LengthLine(Dec(|v.octets|));
    }
  }

  lemma TypeText(t: string)
    requires ValidContentType(t)
    ensures '\r' !in t && '\0' !in t
  {}

  lemma TypeLine(t: string)
    requires ValidContentType(t)
    ensures OneLine(Content(Field("Content-Type", t)))
  {
    hide OneLine, Content, ValidContentType;
    TypeText(t);
    WholeLine(Field("Content-Type", t));
  }

  lemma LengthLine(digits: string)
    requires AllDigits(digits)
    ensures OneLine(Content(Field("Content-Length", digits)))
  {
    hide OneLine, Content;
    assert '\r' !in digits;
    WholeLine(Field("Content-Length", digits));
  }

  /** A field without a carriage return is one line. */
  lemma WholeLine(f: Field)
    requires '\r' !in f.key && '\r' !in f.value
    ensures OneLine(Content(f))
  {
    hide OneLine;
    assert '\r' !in ": ";
    NoEndInside(f.key + ": " + f.value);
  }

  /** The host and the path of a URL are made of its characters. */
  lemma PartsText(u: string, c: char)
    requires c !in u && c != '/'
    ensures c !in UrlOf(u).host && c !in UrlOf(u).path
  {
    var rest := Rest(u);
    assert c !in rest;
    assert c !in Authority(rest);
    assert c !in HostOf(rest);
    assert c !in PathOf(rest);
  }

  lemma DigitsText(n: nat)
    ensures '\0' !in Dec(n) && '\r' !in Dec(n)
  {
    DecReads(n);
  }

  lemma HostText(v: RequestValue, c: char)
    requires c !in v.url && c in {'\0', '\r'}
    ensures c !in HostField(v).value && c !in TargetPath(v)
  {
    hide UrlOf, Dec;
    PartsText(v.url, c);
    DigitsText(UrlOf(v.url).port);
    assert c !in "localhost";
  }

  /** Arguments without a carriage return split nothing. */
  lemma CleanUnsplit(v: RequestValue)
    requires ValidMethod(v.verb) && ValidContentType(v.contentType) && '\r' !in v.url
    requires forall i | 0 <= i < |v.fields| :: '\r' !in v.fields[i].key && '\r' !in v.fields[i].value
    ensures Unsplit(v)
  {
    hide HostField, TargetPath, OneLine, ValidContentType, ValidMethod, RequestLine, Content, BodyFields, Supplied;
    HostText(v, '\r');
    NoEndInside(TargetPath(v));
    TargetOneLine(v);
    BodyOneLine(v);
    SuppliedOneLine(v);
    var fs, gs := Supplied(v) + v.fields, BodyFields(v);
    forall i | 0 <= i < |Emitted(v)| ensures OneLine(Contents(Emitted(v))[i]) {
      if i < |Supplied(v)| {
        assert Emitted(v)[i] == Supplied(v)[i] && Contents(Supplied(v))[i] == Content(Supplied(v)[i]);
      } else if i < |fs| {
        WholeLine(Emitted(v)[i]);
      } else {
        assert Emitted(v)[i] == gs[i - |fs|] && Contents(gs)[i - |fs|] == Content(gs[i - |fs|]);
      }
    }
  }

  lemma SuppliedOneLine(v: RequestValue)
    requires '\r' !in HostField(v).value
    ensures AllOneLine(Contents(Supplied(v)))
  {
    hide HostField, OneLine, Content;
    HostKey(v);
    WholeLine(HostField(v));
    WholeLine(Field("Connection", "close"));
  }

  /**
    The target of a built request (RFC 9112, section 3.3): unless the user set a Host field, the scheme, the first
    field's value and the request's path name the stored URL again, exactly when the scheme is http or https or the
    port is 0 or 80.
   */
  lemma TargetNamed(v: RequestValue)
    requires HostKnown(v) && !HasKey(v.fields, "Host")
    ensures Emitted(v) != [] && Emitted(v)[0].key == "Host"
    ensures var x := UrlOf(v.url);
            var named := x.scheme + "://" + Emitted(v)[0].value + TargetPath(v);
            UrlOf(named) == x <==> x.scheme in {"http", "https"} || x.port in {0, 80}
  {
    TargetReconstructed(v.url);
    assert Emitted(v)[0] == HostField(v);
    assert Reconstructed(UrlOf(v.url)) == UrlOf(v.url).scheme + "://" + Emitted(v)[0].value + TargetPath(v);
  }
}
