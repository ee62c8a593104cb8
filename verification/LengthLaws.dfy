/** The length of the body for a reader that goes by the first Content-Length line of the text. */
module LengthLaws {
  import opened CText
  import opened Decimal
  import opened Url
  import opened HeaderTable
  import opened Request
  import opened Render
  import opened ResponseLaws
  import opened TextLines
  import opened RequestLaws

  /** The lines in front of those that announce the body. */
  function LinesBefore(v: RequestValue): seq<string> {
    Split(RequestLine(v))[1..] + Pieces(Supplied(v) + v.fields)
  }

  lemma {:induction false} PiecesAppend(fs: seq<Field>, gs: seq<Field>)
    ensures Pieces(fs + gs) == Pieces(fs) + Pieces(gs)
  {
    hide Split, Content;
    if fs == [] {
      assert fs + gs == gs;
    } else {
      assert (fs + gs)[1..] == fs[1..] + gs;
      PiecesAppend(fs[1..], gs);
    }
  }

  lemma BodyPieces(v: RequestValue)
    requires ValidContentType(v.contentType)
    ensures HeaderPieces(v) == LinesBefore(v) + Contents(BodyFields(v))
  {
    hide Supplied, RequestLine, Split, Pieces, OneLine;
    PiecesAppend(Supplied(v) + v.fields, BodyFields(v));
    PiecesWhole(BodyFields(v));
    BodyOneLine(v);
  }

  lemma NameIs(f: Field)
    requires ':' !in f.key
    ensures Name(Content(f)) == f.key
  {
    NameOfLine(f, f.key);
  }

  /** The number the builder prints is the one read. */
  lemma NumberRead(n: int)
    ensures Number(Content(Field("Content-Length", DecInt(n)))) == Some(n)
  {
    hide DecInt, ScanInt;
    var f := Field("Content-Length", DecInt(n));
    ColonOf(f);
    IndexFirst(f.key, ':');
    assert Content(f) == "Content-Length:" + " " + DecInt(n) + "";
    ScanPrinted(Content(f), "Content-Length:", " ", n, "");
  }

  lemma BodyLength(v: RequestValue)
    ensures FirstNamed(Contents(BodyFields(v)), "Content-Length") ==
              if v.octets == [] then None else Some(Content(Field("Content-Length", Dec(|v.octets|))))
  {
    if v.octets != [] {
      var t, l := Field("Content-Type", v.contentType), Field("Content-Length", Dec(|v.octets|));
      BothLines(t, l);
    }
  }

  lemma BothLines(t: Field, l: Field)
    requires t.key == "Content-Type" && l.key == "Content-Length"
    ensures FirstNamed(Contents([t, l]), "Content-Length") == Some(Content(l))
  {
    hide Content, Name;
    NameIs(t);
    NameIs(l);
    assert Contents([t, l]) == [Content(t), Content(l)];
    assert [Content(t), Content(l)][1..] == [Content(l)];
  }

  /**
    The length a reader of the first Content-Length line takes from the text of any request: the number on such a line
    in front of the body's own lines; or else, if no empty line ends the head before them, the length of the body.
   */
  lemma LengthReadIs(v: RequestValue)
    requires ValidContentType(v.contentType)
    ensures LengthRead(Rendered(v)) ==
              match FirstNamed(BeforeEmpty(LinesBefore(v)), "Content-Length")
              case Some(line) => Number(line)
              case None => if v.octets == [] || "" in LinesBefore(v) then None else Some(|v.octets|)
  {
    hide LinesBefore, HeaderPieces, Rendered, Number, BodyFields, Content;
    HeaderLinesRead(v);
    BodyPieces(v);
    var before, own := LinesBefore(v), Contents(BodyFields(v));
    NoneEmpty(BodyFields(v));
    BeforeEmptyAppend(before, own);
    BeforeEmptyAll(own);
    FirstNamedAppend(BeforeEmpty(before), own, "Content-Length");
    FirstNamedAppend(BeforeEmpty(before), [], "Content-Length");
    BodyLength(v);
    NumberRead(|v.octets|);
  }

  /** So the length taken is that of the body sent exactly when such a line says so, or none does and none is empty. */
  lemma FirstLengthFrames(v: RequestValue)
    requires ValidContentType(v.contentType) && v.octets != []
    ensures LengthRead(Rendered(v)) == Some(|v.octets|) <==>
              match FirstNamed(BeforeEmpty(LinesBefore(v)), "Content-Length")
              case Some(line) => Number(line) == Some(|v.octets|)
              case None => "" !in LinesBefore(v)
  {
    hide LinesBefore, Rendered, Number, LengthRead;
    LengthReadIs(v);
  }

  lemma {:induction false} FirstNamedKey(fs: seq<Field>, name: string)
    requires ':' !in name && forall i | 0 <= i < |fs| :: !(name + ":" <= fs[i].key)
    ensures FirstNamed(Contents(fs), name) ==
              if HasKey(fs, name) then Some(Content(fs[FindKey(fs, name)])) else None
  {
    hide Content, Name;
    if fs != [] {
      assert Contents(fs)[1..] == Contents(fs[1..]);
      NameOfLine(fs[0], name);
      FirstNamedKey(fs[1..], name);
    }
  }

  lemma UnsplitBefore(v: RequestValue)
    requires Unsplit(v)
    ensures LinesBefore(v) == Contents(Supplied(v) + v.fields) && "" !in LinesBefore(v)
  {
    hide RequestLine, Supplied, Split, Pieces, OneLine, Content, BodyFields;
    var fs := Supplied(v) + v.fields;
    SplitOne(RequestLine(v));
    PiecesWhole(fs);
    forall i | 0 <= i < |fs| ensures OneLine(Contents(fs)[i]) {
      assert Contents(Emitted(v))[i] == Contents(fs)[i];
    }
    NoneEmpty(fs);
  }

  /** Without split lines and posing keys, exactly when the user set no Content-Length or the same number. */
  lemma UserLengthFrames(v: RequestValue)
    requires ValidContentType(v.contentType) && v.octets != [] && Unsplit(v)
    requires forall i | 0 <= i < |v.fields| :: !("Content-Length:" <= v.fields[i].key)
    ensures var user := Lookup(v.fields, "Content-Length");
            LengthRead(Rendered(v)) == Some(|v.octets|) <==>
            user.None? || Number("Content-Length: " + user.value) == Some(|v.octets|)
  {
    hide LinesBefore, Rendered, Number, LengthRead, Unsplit, Supplied, Content, ValidContentType;
    var fs, name := Supplied(v) + v.fields, "Content-Length";
    FirstLengthFrames(v);
    UnsplitBefore(v);
    BeforeEmptyAll(LinesBefore(v));
    assert name + ":" == "Content-Length:" && name + ": " == "Content-Length: ";
    SuppliedNotPosing(v);
    FirstNamedKey(fs, name);
    LookupAppend(Supplied(v), v.fields, name);
    LengthNotSupplied(v);
    ContentOfFound(fs, name);
  }

  lemma ContentOfFound(fs: seq<Field>, name: string)
    ensures HasKey(fs, name) ==> Content(fs[FindKey(fs, name)]) == name + ": " + Lookup(fs, name).value
  {}

  lemma SuppliedNotPosing(v: RequestValue)
    ensures forall i | 0 <= i < |Supplied(v)| :: !("Content-Length:" <= Supplied(v)[i].key)
  {
    OwnKeys(v);
    forall i | 0 <= i < |Supplied(v)| ensures !("Content-Length:" <= Supplied(v)[i].key) {
      PrefixColon("Content-Length", Supplied(v)[i].key);
      assert "Content-Length" + ":" == "Content-Length:";
    }
  }

  lemma LookupAppend(fs: seq<Field>, gs: seq<Field>, key: string)
    ensures Lookup(fs + gs, key) == if HasKey(fs, key) then Lookup(fs, key) else Lookup(gs, key)
  {
    var i := if HasKey(fs, key) then FindKey(fs, key) else |fs| + FindKey(gs, key);
    assert forall j | 0 <= j < |gs| :: (fs + gs)[|fs| + j] == gs[j];
    forall j | 0 <= j < i ensures (fs + gs)[j].key != key {
      if j >= |fs| {
        assert (fs + gs)[|fs| + (j - |fs|)] == gs[j - |fs|];
      }
    }
    assert i < |fs + gs| ==> (fs + gs)[i].key == key;
    assert FindKey(fs + gs, key) == i;
  }

  /** One header and a body of three octets, for an empty URL. */
  function Post(key: string, value: string): RequestValue {
    Run(Initial("post", ""), [SetHeader(key, value), SetBody("abc", None)])
  }

  lemma PostIs(key: string, value: string)
    requires |key| < KEY_SIZE && |value| < VALUE_SIZE
    ensures Post(key, value) == RequestValue("post", "", "text/plain", "abc", [Field(key, value)])
  {
    var ops := [SetHeader(key, value), SetBody("abc", None)];
    var v0 := Initial("post", "");
    assert ops[..1] == [ops[0]] && ops[..1][..0] == [];
    assert Run(v0, ops[..1]) == Step(v0, ops[0]);
    assert v0.verb == "post" && v0.fields == [];
    assert SetField([], key, value) == [Field(key, value)];
  }

  /** The lines of the two fields supplied to it. */
  function LocalLines(): seq<string> {
    ["Host: localhost", "Connection: close"]
  }

  lemma LocalAre()
    ensures LocalLines() == [Content(Field("Host", "localhost")), Content(Field("Connection", "close"))]
    ensures OneLine(Content(Field("Host", "localhost"))) && OneLine(Content(Field("Connection", "close")))
  {
    hide OneLine;
    WholeLine(Field("Host", "localhost"));
    WholeLine(Field("Connection", "close"));
    assert Content(Field("Host", "localhost")) == "Host: localhost";
    assert Content(Field("Connection", "close")) == "Connection: close";
  }

  lemma PostParts(v: RequestValue, f: Field)
    requires v == RequestValue("post", "", "text/plain", "abc", [f]) && f.key !in {"Host", "Connection"}
    ensures Supplied(v) + v.fields == [Field("Host", "localhost"), Field("Connection", "close"), f]
    ensures RequestLine(v) == "post / HTTP/1.1"
  {
    hide UrlOf;
    assert FindKey([f], "Host") == 1 && FindKey([f], "Connection") == 1;
  }

  /** The lines such a request has in front of those that announce the body. */
  lemma PostLines(key: string, value: string)
    requires |key| < KEY_SIZE && |value| < VALUE_SIZE && key !in {"Host", "Connection"}
    ensures LinesBefore(Post(key, value)) == LocalLines() + Split(Content(Field(key, value)))
  {
    hide Post, Split, Pieces, Content, LocalLines, Supplied, RequestLine, OneLine;
    PostIs(key, value);
    var v, f := Post(key, value), Field(key, value);
    PostParts(v, f);
    NoEndInside(RequestLine(v));
    SplitOne(RequestLine(v));
    LocalAre();
    ThreePieces(Field("Host", "localhost"), Field("Connection", "close"), f);
  }

  lemma ThreePieces(a: Field, b: Field, f: Field)
    requires OneLine(Content(a)) && OneLine(Content(b))
    ensures Pieces([a, b, f]) == [Content(a), Content(b)] + Split(Content(f))
  {
    hide Split, Content, OneLine;
    SplitOne(Content(a));
    SplitOne(Content(b));
    PiecesAppend([a], [b, f]);
    PiecesAppend([b], [f]);
    PieceOne(a);
    PieceOne(b);
    PieceOne(f);
    assert [a, b, f] == [a] + [b, f] && [b, f] == [b] + [f];
  }

  lemma PieceOne(f: Field)
    ensures Pieces([f]) == Split(Content(f))
  {
    hide Split, Content;
    assert [f][1..] == [];
  }

  /** The first Content-Length line behind the two supplied ones. */
  lemma BehindSupplied(lines: seq<string>)
    ensures FirstNamed(BeforeEmpty(LocalLines() + lines), "Content-Length")
         == FirstNamed(BeforeEmpty(lines), "Content-Length")
  {
    hide Name, Content, LocalLines;
    LocalAre();
    var a, b := Field("Host", "localhost"), Field("Connection", "close");
    NoneEmpty([a, b]);
    assert Contents([a, b]) == LocalLines();
    BeforeEmptyAppend(LocalLines(), lines);
    BeforeEmptyAll(LocalLines());
    FirstNamedAppend(LocalLines(), BeforeEmpty(lines), "Content-Length");
    NotNamed(a, b);
  }

  lemma NotNamed(a: Field, b: Field)
    requires a.key == "Host" && b.key == "Connection"
    ensures FirstNamed([Content(a), Content(b)], "Content-Length") == None
  {
    hide Name, Content;
    NameIs(a);
    NameIs(b);
    assert [Content(a), Content(b)][1..] == [Content(b)] && [Content(b)][1..] == [];
    assert FirstNamed([Content(b)], "Content-Length") == None;
  }

  /** A request whose first field is `f`, with the lines `f` makes. */
  lemma PostLength(f: Field, lines: seq<string>)
    requires |f.key| < KEY_SIZE && |f.value| < VALUE_SIZE && f.key !in {"Host", "Connection"}
    requires Split(Content(f)) == lines
    ensures var v := Post(f.key, f.value);
            && v.fields == [f] && v.octets == "abc"
            && LengthRead(Rendered(v)) ==
                 match FirstNamed(BeforeEmpty(lines), "Content-Length")
                 case Some(line) => Number(line)
                 case None => if "" in lines then None else Some(3)
  {
    hide Post, LengthRead, Rendered, LinesBefore, Number, Split, Content, LocalLines, BeforeEmpty;
    PostIs(f.key, f.value);
    PostLines(f.key, f.value);
    LengthReadIs(Post(f.key, f.value));
    BehindSupplied(lines);
    LocalAre();
    NoneEmpty([Field("Host", "localhost"), Field("Connection", "close")]);
    assert Contents([Field("Host", "localhost"), Field("Connection", "close")]) == LocalLines();
    assert |"abc"| == 3 && LinesBefore(Post(f.key, f.value)) == LocalLines() + lines;
    assert "" in LocalLines() + lines <==> "" in lines;
  }

  lemma FiveRead(l: Field)
    requires l == Field("Content-Length", "5")
    ensures Number(Content(l)) == Some(5) && OneLine(Content(l)) && Name(Content(l)) == "Content-Length"
  {
    hide Number, Name, OneLine;
    NumberRead(5);
    assert DecInt(5) == "5";
    WholeLine(l);
    NameIs(l);
  }

  lemma XRead()
    ensures OneLine("X: a") && Name("X: a") == "X"
  {
    hide Name, OneLine;
    WholeLine(Field("X", "a"));
    assert Content(Field("X", "a")) == "X: a";
    NameIs(Field("X", "a"));
  }

  /** A key that starts with `Host:` makes a second Host line. */
  lemma PosingHost()
    ensures CountNamed(HeaderLines(Rendered(Post("Host:x", "y"))), "Host") == 2
  {
    hide HeaderLines, Rendered, Unsplit, Run;
    var ops, f := [SetHeader("Host:x", "y"), SetBody("abc", None)], Field("Host:x", "y");
    PostIs("Host:x", "y");
    var v := Post("Host:x", "y");
    CleanUnsplit(v);
    MandatoryLines("post", "", ops);
    OnePrefixed(f, "Host:");
  }

  lemma OnePrefixed(f: Field, prefix: string)
    requires prefix <= f.key
    ensures CountPrefixed([f], prefix) == 1
  {
    assert [f][..0] == [];
  }

  /** A user's Content-Length goes out in front of the body's own, with another number. */
  lemma UserLengthFirst()
    ensures var v := Post("Content-Length", "5");
            LengthRead(Rendered(v)) == Some(5) && v.octets == "abc"
  {
    hide Post, LengthRead, Rendered, Number, Split, Content, Name, OneLine;
    var f := Field("Content-Length", "5");
    FiveRead(f);
    NoneEmpty([f]);
    assert Contents([f]) == [Content(f)] && [Content(f)][1..] == [];
    SplitOne(Content(f));
    BeforeEmptyAll([Content(f)]);
    PostLength(f, [Content(f)]);
  }

  lemma TwoPieces(f: Field, a: string, b: string)
    requires Content(f) == a + CRLF + b && OneLine(a) && OneLine(b)
    ensures Split(Content(f)) == [a, b]
  {
    hide Split, Content, OneLine;
    SplitOne(a);
    SplitOne(b);
    SplitAppend(a, b);
  }

  /** A line end inside a value puts a Content-Length line into the text that no field of the request has. */
  lemma InjectedLength()
    ensures var v := Post("X", "a\r\nContent-Length: 5");
            LengthRead(Rendered(v)) == Some(5) && v.octets == "abc" && !HasKey(v.fields, "Content-Length")
  {
    hide Post, LengthRead, Rendered, Number, Split, Content, Name, OneLine;
    var f, l := Field("X", "a\r\nContent-Length: 5"), Field("Content-Length", "5");
    FiveRead(l);
    XRead();
    InjectedText(f, l);
    TwoPieces(f, "X: a", Content(l));
    SecondNamed("X: a", Content(l));
    PostLength(f, ["X: a", Content(l)]);
  }

  lemma InjectedText(f: Field, l: Field)
    requires f == Field("X", "a\r\nContent-Length: 5") && l == Field("Content-Length", "5")
    ensures Content(f) == "X: a" + CRLF + Content(l) && Content(l) != ""
  {
    assert Content(l) == "Content-Length: 5";
    assert f.value == "a" + CRLF + "Content-Length: 5";
    ValueGlued("X", "a", "Content-Length: 5");
  }

  lemma ValueGlued(key: string, a: string, b: string)
    ensures key + ": " + (a + CRLF + b) == (key + ": " + a) + CRLF + b
  {}

  lemma SecondNamed(a: string, b: string)
    requires a != "" && b != "" && Name(a) != "Content-Length" && Name(b) == "Content-Length"
    ensures FirstNamed(BeforeEmpty([a, b]), "Content-Length") == Some(b)
  {
    hide Name;
    BeforeEmptyAll([a, b]);
    assert [a, b][1..] == [b];
  }
}
