/** Where the head of a built request ends for a reader of its text, and how its first line reads back. */
module FramingLaws {
  import opened CText
  import opened Decimal
  import opened Url
  import opened UrlLaws
  import opened HeaderTable
  import opened Request
  import opened Render
  import opened ResponseLaws
  import opened TextLines
  import opened RequestLaws
  import opened LengthLaws

  // ---------------------------------------------------------------- the end of the head

  /** The line of the field, between two others, makes no blank line. */
  predicate Unbroken(f: Field) {
    && Find(Content(f), BLANK).Absent?
    && !At(f.key, CRLF, 0) && !(|f.value| >= 2 && At(f.value, CRLF, |f.value| - 2))
  }

  predicate AllUnbroken(fs: seq<Field>) {
    forall i | 0 <= i < |fs| :: Unbroken(fs[i])
  }

  /** No blank line starts in front of the end of the field's line. */
  ghost predicate NoneStarts(text: string, n: nat) {
    forall j: nat | j < n :: !At(text, BLANK, j)
  }

  lemma LineUnbroken(f: Field, tail: string)
    requires At(tail, CRLF, 0)
    ensures NoneStarts((CRLF + Content(f)) + tail, 2 + |Content(f)|) <==> Unbroken(f)
  {
    hide At;
    var c, text := Content(f), (CRLF + Content(f)) + tail;
    var n := |c|;
    FindFirst(c, BLANK);
    AtCrlf(tail, 0);
    assert forall k | 0 <= k < n :: text[2 + k] == c[k];
    assert text[2 + n] == '\r' && text[3 + n] == '\n';
    LineEdges(f);
    if Unbroken(f) {
      forall j: nat | j < 2 + n ensures !At(text, BLANK, j) {
        InLine(c, tail, j);
      }
    } else {
      BrokenAt(f, tail);
    }
  }

  /** The edges of a field's line are those of its key and its value. */
  lemma LineEdges(f: Field)
    ensures |Content(f)| >= 2
    ensures At(Content(f), CRLF, 0) <==> At(f.key, CRLF, 0)
    ensures At(Content(f), CRLF, |Content(f)| - 2) <==> |f.value| >= 2 && At(f.value, CRLF, |f.value| - 2)
  {
    hide At;
    var c := Content(f);
    AtCrlf(c, 0);
    AtCrlf(f.key, 0);
    assert c[|f.key|] == ':' && c[|f.key| + 1] == ' ';
    AtCrlf(c, |c| - 2);
    if |f.value| >= 2 {
      AtCrlf(f.value, |f.value| - 2);
    }
  }

  /** A blank line that starts in the line lies in it, or uses the line end before or behind it. */
  lemma InLine(c: string, tail: string, j: nat)
    requires |c| >= 2 && At(tail, CRLF, 0) && j < 2 + |c|
    ensures At((CRLF + c) + tail, BLANK, j) ==>
              || (j == 0 && At(c, CRLF, 0))
              || (j >= 2 && At(c, BLANK, j - 2))
              || (j == |c| && At(c, CRLF, |c| - 2))
  {
    hide At;
    var text := (CRLF + c) + tail;
    AtCrlf(tail, 0);
    AtBlank(text, j);
    AtCrlf(text, j);
    AtCrlf(text, j + 2);
    AtCrlf(c, 0);
    AtCrlf(c, |c| - 2);
    assert forall k | 0 <= k < |c| :: text[2 + k] == c[k];
    assert text[2 + |c|] == '\r' && text[3 + |c|] == '\n';
    if j >= 2 {
      AtBlank(c, j - 2);
      AtCrlf(c, j - 2);
      AtCrlf(c, j);
    }
  }

  /** A broken line makes a blank line. */
  lemma BrokenAt(f: Field, tail: string)
    requires At(tail, CRLF, 0) && !Unbroken(f)
    ensures !NoneStarts((CRLF + Content(f)) + tail, 2 + |Content(f)|)
  {
    hide At, Content, NoneStarts;
    LineEdges(f);
    BrokenText(Content(f), tail);
  }

  lemma BrokenText(c: string, tail: string)
    requires |c| >= 2 && At(tail, CRLF, 0)
    requires At(c, CRLF, 0) || At(c, CRLF, |c| - 2) || Find(c, BLANK).Place?
    ensures !NoneStarts((CRLF + c) + tail, 2 + |c|)
  {
    hide At;
    var text, n := (CRLF + c) + tail, |c|;
    AtCrlf(tail, 0);
    assert text[2..2 + n] == c;
    assert forall k | 2 <= k < 2 + n :: text[k] == c[k - 2];
    if At(c, CRLF, 0) {
      AtCrlf(c, 0);
      BlankHere(text, 0);
    } else if At(c, CRLF, n - 2) {
      AtCrlf(c, n - 2);
      BlankHere(text, n);
    } else {
      var i := Find(c, BLANK).index;
      AtBlank(c, i);
      AtCrlf(c, i);
      AtCrlf(c, i + 2);
      BlankHere(text, i + 2);
    }
  }

  lemma BlankHere(text: string, j: nat)
    requires j + 3 < |text| && text[j] == '\r' && text[j + 1] == '\n' && text[j + 2] == '\r' && text[j + 3] == '\n'
    ensures At(text, BLANK, j)
  {
    AtBlank(text, j);
    AtCrlf(text, j);
    AtCrlf(text, j + 2);
  }

  /** A front in which no blank line starts only moves the first one; any other front brings it forward. */
  lemma FrontDecides(front: string, tail: string, n: nat)
    ensures Find(front + tail, BLANK) == Place(|front| + n) <==>
            NoneStarts(front + tail, |front|) && Find(tail, BLANK) == Place(n)
  {
    if NoneStarts(front + tail, |front|) {
      FindSkip(front, tail, BLANK);
    } else {
      FindFirst(front + tail, BLANK);
    }
  }

  /** Behind a line end, the first blank line is the one that ends the fields, exactly when no field's line breaks. */
  lemma {:induction false} BlankAfterLines(fs: seq<Field>, rest: string)
    ensures Find(CRLF + (Lines(fs) + CRLF + rest), BLANK) == Place(|Lines(fs)|) <==> AllUnbroken(fs)
    decreases |fs|
  {
    hide Unbroken, NoneStarts, At, Content, Find;
    if fs == [] {
      BlankAtOnce(rest);
    } else {
      var front, tail := CRLF + Content(fs[0]), CRLF + (Lines(fs[1..]) + CRLF + rest);
      LinesStart(fs, rest);
      AtCrlf(tail, 0);
      BlankAfterLines(fs[1..], rest);
      LineUnbroken(fs[0], tail);
      FrontDecides(front, tail, |Lines(fs[1..])|);
      assert fs == [fs[0]] + fs[1..];
    }
  }

  lemma LinesStart(fs: seq<Field>, rest: string)
    requires fs != []
    ensures CRLF + (Lines(fs) + CRLF + rest)
         == (CRLF + Content(fs[0])) + (CRLF + (Lines(fs[1..]) + CRLF + rest))
    ensures |Lines(fs)| == |CRLF + Content(fs[0])| + |Lines(fs[1..])|
  {
    hide Content;
    LineGlued(Content(fs[0]), Lines(fs[1..]), rest);
  }

  lemma LineGlued(c: string, lines: string, rest: string)
    ensures CRLF + (c + CRLF + lines + CRLF + rest) == (CRLF + c) + (CRLF + (lines + CRLF + rest))
  {}

  lemma BlankAtOnce(rest: string)
    ensures Lines([]) == "" && Find(CRLF + (Lines([]) + CRLF + rest), BLANK) == Place(0)
  {
    var text := CRLF + (Lines([]) + CRLF + rest);
    BlankHere(text, 0);
    FindIs(text, BLANK, 0);
  }

  /** In the start line a blank line can only lie in the target. */
  lemma StartUnbroken(verb: string, path: string, tail: string)
    requires ValidMethod(verb) && At(tail, CRLF, 0)
    ensures var line := verb + " " + path + " HTTP/1.1";
            NoneStarts(line + tail, |line|) <==> Find(path, BLANK).Absent?
  {
    hide At, ValidMethod, Find, NoneStarts;
    var line, m := verb + " " + path + " HTTP/1.1", |verb| + 1;
    var text, e := line + tail, m + |path|;
    assert text[m..e] == path;
    VerbText(verb);
    forall k | 0 <= k < m ensures text[k] != '\r' {
      assert text[k] == (verb + " ")[k];
    }
    forall k | e <= k < e + 9 ensures text[k] != '\r' && text[k] != '\n' {
      assert text[k] == " HTTP/1.1"[k - e];
    }
    PathDecides(text, path, m, e);
  }

  lemma PathDecides(text: string, path: string, m: nat, e: nat)
    requires e == m + |path| && e + 9 <= |text| && text[m..e] == path
    requires forall k | 0 <= k < m :: text[k] != '\r'
    requires forall k | e <= k < e + 9 :: text[k] != '\r' && text[k] != '\n'
    ensures NoneStarts(text, e + 9) <==> Find(path, BLANK).Absent?
  {
    hide At, Find;
    FindFirst(path, BLANK);
    if Find(path, BLANK).Absent? {
      forall j: nat | j < e + 9 ensures !At(text, BLANK, j) {
        OutsidePath(text, path, m, e, j);
      }
    } else {
      var i := Find(path, BLANK).index;
      AtBlank(path, i);
      AtCrlf(path, i);
      AtCrlf(path, i + 2);
      assert forall k | 0 <= k < |path| :: text[m + k] == text[m..e][k];
      BlankHere(text, m + i);
    }
  }

  lemma VerbText(verb: string)
    requires ValidMethod(verb)
    ensures '\r' !in verb + " " && ' ' !in verb
  {}

  lemma OutsidePath(text: string, path: string, m: nat, e: nat, j: nat)
    requires e == m + |path| && e + 9 <= |text| && text[m..e] == path
    requires forall k | 0 <= k < m :: text[k] != '\r'
    requires forall k | e <= k < e + 9 :: text[k] != '\r' && text[k] != '\n'
    requires j < e + 9
    ensures At(text, BLANK, j) ==> m <= j && At(path, BLANK, j - m)
  {
    hide At;
    AtBlank(text, j);
    AtCrlf(text, j);
    AtCrlf(text, j + 2);
    if m <= j < e {
      AtBlank(path, j - m);
      AtCrlf(path, j - m);
      AtCrlf(path, j - m + 2);
      assert forall k | m <= k < e :: text[k] == text[m..e][k - m];
    }
  }

  /** The first blank line of the text ends the head exactly when none lies in the target or comes about in a field. */
  lemma BlankEndsHead(v: RequestValue)
    requires ValidMethod(v.verb)
    ensures Find(Rendered(v), BLANK) == Place(|Head(v)| - 4) <==>
            Find(TargetPath(v), BLANK).Absent? && AllUnbroken(Emitted(v))
  {
    hide Rendered, Head, Emitted, Lines, TargetPath, NoneStarts, AllUnbroken, Find, At;
    var line, tail := RequestLine(v), CRLF + (Lines(Emitted(v)) + CRLF + v.octets);
    RenderedParts(v);
    assert Rendered(v) == line + tail;
    AtCrlf(tail, 0);
    BlankAfterLines(Emitted(v), v.octets);
    StartUnbroken(v.verb, TargetPath(v), tail);
    FrontDecides(line, tail, |Lines(Emitted(v))|);
  }

  lemma LengthReads(n: nat)
    ensures ScanInt(Dec(n), 0) == Some(n)
  {
    assert Dec(n) == "" + "" + DecInt(n) + "";
    ScanPrinted(Dec(n), "", "", n, "");
  }

  /**
    What follows the head are the octets of the body, as many as the digits of the Content-Length line that ends the
    head say; they lie behind the first blank line exactly when neither the target nor a field in front of the body's
    own makes one (RFC 9112, section 6.2).
   */
  lemma Framing(v: RequestValue)
    requires ValidMethod(v.verb) && ValidContentType(v.contentType) && v.octets != []
    ensures Rendered(v)[|Head(v)|..] == v.octets
    ensures Find(Rendered(v), BLANK) == Place(|Head(v)| - 4) <==>
            Find(TargetPath(v), BLANK).Absent? && AllUnbroken(Supplied(v) + v.fields)
    ensures var last := Emitted(v)[|Emitted(v)| - 1];
            last.key == "Content-Length" && ScanInt(last.value, 0) == Some(|v.octets|)
  {
    hide Head, TargetPath, Supplied, Find, At, Unbroken;
    BlankEndsHead(v);
    LengthReads(|v.octets|);
    BodyUnbroken(v);
    UnbrokenAppend(Supplied(v) + v.fields, BodyFields(v));
  }

  lemma UnbrokenAppend(fs: seq<Field>, gs: seq<Field>)
    ensures AllUnbroken(fs + gs) <==> AllUnbroken(fs) && AllUnbroken(gs)
  {
    hide Unbroken;
    if AllUnbroken(fs + gs) {
      assert forall i | 0 <= i < |fs| :: (fs + gs)[i] == fs[i];
      assert forall i | 0 <= i < |gs| :: (fs + gs)[|fs| + i] == gs[i];
    }
  }

  lemma BodyUnbroken(v: RequestValue)
    requires ValidContentType(v.contentType)
    ensures AllUnbroken(BodyFields(v))
  {
    hide Unbroken, ValidContentType, Dec;
    TypeText(v.contentType);
    DigitsUnbroken(|v.octets|);
    WholeField(Field("Content-Type", v.contentType));
  }

  lemma DigitsUnbroken(n: nat)
    ensures Unbroken(Field("Content-Length", Dec(n)))
  {
    hide Unbroken;
    DecReads(n);
    assert '\r' !in Dec(n);
    WholeField(Field("Content-Length", Dec(n)));
  }

  /** A field without a carriage return makes no blank line. */
  lemma WholeField(f: Field)
    requires '\r' !in f.key && '\r' !in f.value
    ensures Unbroken(f)
  {
    var c := Content(f);
    assert '\r' !in c;
    forall j: nat ensures !At(c, BLANK, j) {
      AtBlank(c, j);
      AtCrlf(c, j);
    }
    FindNone(c, BLANK);
    AtCrlf(f.key, 0);
    if |f.value| >= 2 {
      AtCrlf(f.value, |f.value| - 2);
    }
  }

  /** A value that ends with a line end ends the head in front of the body's own lines. */
  lemma HeadEndsEarly()
    ensures var v := Post("X", "a\r\n");
            && Find(Rendered(v), BLANK) != Place(|Head(v)| - 4)
            && LengthRead(Rendered(v)) == None && v.octets == "abc"
  {
    hide Post, LengthRead, Rendered, Head, Split, Find, TargetPath, Content, Name, OneLine, Supplied, BodyFields;
    var f := Field("X", "a\r\n");
    XRead();
    EmptyLine();
    EarlyText(f);
    TwoPieces(f, "X: a", "");
    NoSecond("X: a");
    PostLength(f, ["X: a", ""]);
    PostIs(f.key, f.value);
    BlankEndsHead(Post(f.key, f.value));
    assert Emitted(Post(f.key, f.value))[|Supplied(Post(f.key, f.value))|] == f;
  }

  lemma EarlyText(f: Field)
    requires f == Field("X", "a\r\n")
    ensures Content(f) == "X: a" + CRLF + "" && !Unbroken(f)
  {
    AtCrlf(f.value, 1);
  }

  lemma NoSecond(a: string)
    requires a != "" && Name(a) != "Content-Length"
    ensures FirstNamed(BeforeEmpty([a, ""]), "Content-Length") == None
  {
    hide Name;
    BeforeEmptyAppend([a], [""]);
    BeforeEmptyAll([a]);
    assert [a] + [""] == [a, ""] && [a][1..] == [];
  }

  // ---------------------------------------------------------------- the start line

  /** A word in front of a space is read back up to the first space exactly when it holds none. */
  lemma WordRead(word: string, rest: string)
    ensures IndexOf(word + " " + rest, ' ') == |word| <==> ' ' !in word
  {
    var s := word + " " + rest;
    assert s[|word|] == ' ' && forall j | 0 <= j < |word| :: s[j] == word[j];
    IndexFirst(s, ' ');
    if ' ' !in word {
      IndexOfIs(s, ' ', |word|);
    }
  }

  /** The word between the first two spaces of a line. */
  function SecondWord(line: string): string {
    var m := IndexOf(line, ' ');
    var rest := if m < |line| then line[m + 1..] else "";
    rest[..IndexOf(rest, ' ')]
  }

  lemma WordsOf(verb: string, rest: string)
    requires ' ' !in verb
    ensures IndexOf(verb + " " + rest, ' ') == |verb| && (verb + " " + rest)[|verb| + 1..] == rest
    ensures SecondWord(verb + " " + rest) == rest[..IndexOf(rest, ' ')]
  {
    WordRead(verb, rest);
    assert (verb + " " + rest)[|verb| + 1..] == rest;
  }

  lemma TargetWord(verb: string, path: string)
    requires ' ' !in verb
    ensures SecondWord(verb + " " + path + " HTTP/1.1") == path <==> ' ' !in path
  {
    var rest := path + " " + "HTTP/1.1";
    assert verb + " " + path + " HTTP/1.1" == verb + " " + rest;
    WordsOf(verb, rest);
    WordRead(path, "HTTP/1.1");
    var n := IndexOf(rest, ' ');
    IndexFirst(rest, ' ');
    assert rest[|path|] == ' ';
    assert n <= |path|;
    assert rest[..|path|] == path;
  }

  lemma CutAt(verb: string, path: string, i: nat)
    requires ValidMethod(verb) && Find(path, CRLF) == Place(i)
    ensures i < |path| && Split(verb + " " + path + " HTTP/1.1")[0] == verb + " " + path[..i]
  {
    hide At, Split, ValidMethod;
    var front, line := verb + " ", verb + " " + path + " HTTP/1.1";
    var n := |front| + i;
    VerbText(verb);
    FindFirst(path, CRLF);
    AtCrlf(path, i);
    assert line[|front|..|front| + |path|] == path;
    forall j: nat | j < n ensures !At(line, CRLF, j) {
      AtCrlf(line, j);
      if j < |front| {
        assert line[j] == front[j];
      } else {
        AtCrlf(path, j - |front|);
        assert forall k | |front| <= k < |front| + |path| :: line[k] == path[k - |front|];
      }
    }
    assert forall k | |front| <= k < |front| + |path| :: line[k] == path[k - |front|];
    AtCrlf(line, n);
    FindIs(line, CRLF, n);
    SplitStep(line, n);
    assert line[..n] == verb + " " + path[..i];
  }

  /**
    The start line of any built request (RFC 9112, section 3): the first line of the text starts with the method, and
    its second word is the target exactly when the target holds neither a space nor a line end.
   */
  lemma StartLineRead(v: RequestValue)
    requires ValidMethod(v.verb)
    ensures var line, path := Split(Rendered(v))[0], TargetPath(v);
            && IndexOf(line, ' ') == |v.verb| < |line| && line[..|v.verb|] == v.verb
            && (SecondWord(line) == path <==> ' ' !in path && OneLine(path))
  {
    hide TargetPath, Rendered, SecondWord, Split, OneLine, IndexOf, ValidMethod;
    var path := TargetPath(v);
    RenderedLines(v);
    VerbText(v.verb);
    if OneLine(path) {
      TargetOneLine(v);
      SplitOne(RequestLine(v));
      WholeStart(v.verb, path);
    } else {
      CutStart(v.verb, path);
    }
  }

  lemma WholeStart(verb: string, path: string)
    requires ' ' !in verb
    ensures var line := verb + " " + path + " HTTP/1.1";
            && IndexOf(line, ' ') == |verb| < |line| && line[..|verb|] == verb
            && (SecondWord(line) == path <==> ' ' !in path)
  {
    hide SecondWord, IndexOf;
    assert verb + " " + path + " HTTP/1.1" == verb + " " + (path + " HTTP/1.1");
    WordsOf(verb, path + " HTTP/1.1");
    TargetWord(verb, path);
  }

  /** The first line of a request whose target holds a line end stops in front of it. */
  lemma CutStart(verb: string, path: string)
    requires ValidMethod(verb) && !OneLine(path)
    ensures var line := Split(verb + " " + path + " HTTP/1.1")[0];
            IndexOf(line, ' ') == |verb| < |line| && line[..|verb|] == verb && SecondWord(line) != path
  {
    hide Split, SecondWord, IndexOf, ValidMethod;
    var i := Find(path, CRLF).index;
    CutAt(verb, path, i);
    VerbText(verb);
    WordsOf(verb, path[..i]);
    WordShort(path, i);
  }

  lemma WordShort(path: string, i: nat)
    requires i < |path|
    ensures path[..i][..IndexOf(path[..i], ' ')] != path
  {}

  lemma InitialParts(verb: string, url: string)
    requires |verb| < METHOD_SIZE && |url| < URL_SIZE
    ensures Initial(verb, url).verb == verb && Initial(verb, url).url == url
  {}

  lemma LineOfTarget(v: RequestValue, x: Url)
    requires v.url != "" && UrlOf(v.url) == x && x.host != ""
    ensures TargetPath(v) == x.path && RequestLine(v) == v.verb + " " + x.path + " HTTP/1.1"
  {}

  /** The target of a plain http URL is its path. */
  lemma HttpTarget(path: string, url: string)
    requires path != "" && path[0] == '/' && |path| < 100 && url == "http://h" + path
    ensures TargetPath(Initial("get", url)) == path && Initial("get", url).verb == "get"
  {
    hide UrlOf, RequestLine, TargetPath, Initial, Find;
    var x := Url("http", "h", 80, path);
    NoColonNoSeparator("http");
    PlainRoundTrip(x);
    assert x.scheme + "://" + x.host + x.path == url;
    InitialParts("get", url);
    LineOfTarget(Initial("get", url), x);
  }

  /** A space in the path ends the target early. */
  lemma SpaceSplitsTarget()
    ensures var v := Initial("get", "http://h/a b");
            TargetPath(v) == "/a b" && Split(Rendered(v))[0] == "get /a b HTTP/1.1"
    ensures SecondWord("get /a b HTTP/1.1") == "/a"
  {
    hide UrlOf, TargetPath, Initial, Split, Rendered, SecondWord, IndexOf, OneLine;
    var v := Initial("get", "http://h/a b");
    HttpTarget("/a b", "http://h/a b");
    NoEndInside("/a b");
    TargetOneLine(v);
    SplitOne(RequestLine(v));
    assert RequestLine(v) == "get /a b HTTP/1.1";
    RenderedLines(v);
    FirstOfTwo();
  }

  lemma FirstOfTwo()
    ensures SecondWord("get /a b HTTP/1.1") == "/a"
  {
    hide SecondWord, IndexOf;
    WordsOf("get", "/a b HTTP/1.1");
    assert "get" + " " + "/a b HTTP/1.1" == "get /a b HTTP/1.1";
    IndexOfIs("/a b HTTP/1.1", ' ', 2);
  }

  /** So does a line end, and the version is lost with the rest. */
  lemma LineEndSplitsTarget()
    ensures var v := Initial("get", "http://h/a\r\nb");
            TargetPath(v) == "/a\r\nb" && Split(Rendered(v))[0] == "get /a"
  {
    hide UrlOf, TargetPath, Initial, Split, Rendered, Find;
    var v, path := Initial("get", "http://h/a\r\nb"), "/a\r\nb";
    HttpTarget(path, "http://h/a\r\nb");
    EndAtTwo(path);
    RenderedLines(v);
    CutAt("get", path, 2);
    assert "get" + " " + path[..2] == "get /a";
  }

  lemma EndAtTwo(path: string)
    requires |path| > 3 && path[0] != '\r' && path[1] != '\r' && path[2] == '\r' && path[3] == '\n'
    ensures Find(path, CRLF) == Place(2)
  {
    hide At;
    AtCrlf(path, 2);
    forall j: nat | j < 2 ensures !At(path, CRLF, j) {
      AtCrlf(path, j);
    }
    FindIs(path, CRLF, 2);
  }
}
