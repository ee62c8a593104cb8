/** What the response parser reads back from printed messages (RFC 9112, sections 4 and 5). */
module ResponseLaws {
  import opened CText
  import opened Decimal
  import opened HeaderTable
  import opened Render
  import opened Response
  import opened TextLines

  // ---------------------------------------------------------------- one line

  lemma SpanShift(text: string, a: nat, cls: CharClass, p: nat)
    requires a + p <= |text|
    ensures SpanFrom(text, cls, a + p) == a + SpanFrom(text[a..], cls, p)
  {
    SpanFromLongest(text[a..], cls, p);
    SpanFromIs(text, cls, a + p, a + SpanFrom(text[a..], cls, p));
  }

  lemma SetShift(text: string, a: nat, cls: CharClass, p: nat, width: nat)
    requires a + p <= |text|
    ensures ScanSet(text, cls, a + p, width) == a + ScanSet(text[a..], cls, p, width)
    ensures text[a + p..ScanSet(text, cls, a + p, width)] == text[a..][p..ScanSet(text[a..], cls, p, width)]
  {
    SpanShift(text, a, cls, p);
  }

  lemma ValueShift(text: string, a: nat, p: nat)
    requires a + p <= |text|
    ensures ScanValue(text, a + p) == ScanValue(text[a..], p)
  {
    SpanShift(text, a, Spaces, p);
    SetShift(text, a, Except({'\r', '\n'}), SpanFrom(text[a..], Spaces, p), VALUE_SIZE - 1);
  }

  /** A scan from a pointer sees only the text behind it. */
  lemma ScanShift(text: string, a: nat)
    requires a <= |text|
    ensures ScanHeader(text, a) == ScanHeader(text[a..], 0)
  {
    SetShift(text, a, Except({':'}), 0, KEY_SIZE - 1);
    var e := ScanSet(text[a..], Except({':'}), 0, KEY_SIZE - 1);
    if e < |text[a..]| {
      ValueShift(text, a, e + 1);
    }
  }

  predicate NoBreak(s: string) {
    '\r' !in s && '\n' !in s
  }

  /** A value the scan behind `": "` reads back: it starts with its own first character. */
  predicate Plain(value: string) {
    value != "" && !IsSpace(value[0])
  }

  /** What is left of a text behind its leading white space, line ends included. */
  function Strip(s: string): string {
    s[SpanFrom(s, Spaces, 0)..]
  }

  /** A text up to its first carriage return or line feed. */
  function FirstLine(s: string): string {
    s[..SpanFrom(s, Except({'\r', '\n'}), 0)]
  }

  /** The value a text holds for the parser. */
  function FirstValue(s: string): string {
    Cut(FirstLine(Strip(s)), VALUE_SIZE)
  }

  lemma ValueScanned(s: string, p: nat)
    requires p <= |s|
    ensures ScanValue(s, p) == FirstValue(s[p..])
  {
    ValueShift(s, p, 0);
    var t := s[p..];
    var q := SpanFrom(t, Spaces, 0);
    SetShift(t, q, Except({'\r', '\n'}), 0, VALUE_SIZE - 1);
    var u := t[q..];
    var e := SpanFrom(u, Except({'\r', '\n'}), 0);
    assert e >= VALUE_SIZE ==> u[..e][..VALUE_SIZE - 1] == u[..VALUE_SIZE - 1];
  }

  lemma StripSkip(blanks: string, s: string)
    requires AllSpaces(blanks)
    ensures Strip(blanks + s) == Strip(s)
  {
    SpanFromLongest(s, Spaces, 0);
    var n := SpanFrom(s, Spaces, 0);
    SpanFromIs(blanks + s, Spaces, 0, |blanks| + n);
  }

  lemma StripAppend(s: string, tail: string)
    requires Strip(s) != ""
    ensures Strip(s + tail) == Strip(s) + tail
  {
    SpanFromLongest(s, Spaces, 0);
    SpanFromIs(s + tail, Spaces, 0, SpanFrom(s, Spaces, 0));
  }

  lemma StripFirst(s: string)
    ensures Strip(s) == "" <==> AllSpaces(s)
    ensures Strip(s) != "" ==> !IsSpace(Strip(s)[0])
    ensures s == "" || !IsSpace(s[0]) ==> Strip(s) == s
  {
    SpanFromLongest(s, Spaces, 0);
  }

  lemma FirstLineEnds(s: string, rest: string)
    ensures FirstLine(s + (CRLF + rest)) == FirstLine(s)
  {
    var t, n := s + (CRLF + rest), SpanFrom(s, Except({'\r', '\n'}), 0);
    SpanFromLongest(s, Except({'\r', '\n'}), 0);
    assert t[|s|] == '\r' && forall j | 0 <= j < |s| :: t[j] == s[j];
    SpanFromIs(t, Except({'\r', '\n'}), 0, n);
  }

  /** The value of a line whose end is followed by `rest`: its own, or if it has none, whatever value `rest` holds. */
  function LineValue(value: string, rest: string): string {
    if Strip(value) != "" then FirstValue(value) else FirstValue(rest)
  }

  lemma LineValueRead(value: string, rest: string)
    ensures FirstValue(value + (CRLF + rest)) == LineValue(value, rest)
  {
    if Strip(value) != "" {
      StripAppend(value, CRLF + rest);
      FirstLineEnds(Strip(value), rest);
    } else {
      StripFirst(value);
      BlankLine(value, rest);
    }
  }

  lemma BlankLine(blanks: string, rest: string)
    requires AllSpaces(blanks)
    ensures Strip(blanks + (CRLF + rest)) == Strip(rest)
  {
    StripSkip(blanks, CRLF + rest);
    StripSkip(CRLF, rest);
  }

  /** What the parser reads as a header line at the front of a text, whatever the text. */
  function ReadText(t: string): Field {
    var colon := IndexOf(t, ':');
    if colon == 0 || colon >= KEY_SIZE || colon == |t| then Field(Cut(t[..colon], KEY_SIZE), "")
    else Field(t[..colon], FirstValue(t[colon + 1..]))
  }

  lemma TextRead(t: string)
    ensures ScanHeader(t, 0) == ReadText(t)
  {
    hide FirstValue, ScanValue;
    var colon := IndexOf(t, ':');
    IndexFirst(t, ':');
    SpanFromIs(t, Except({':'}), 0, colon);
    if colon < |t| {
      ValueScanned(t, colon + 1);
    }
  }

  /** What it reads of a line that keeps its key to itself. */
  function ReadLine(line: string, rest: string): Field {
    var colon := IndexOf(line, ':');
    if colon == 0 || colon >= KEY_SIZE || colon == |line| then Field(Cut(line[..colon], KEY_SIZE), "")
    else Field(line[..colon], LineValue(line[colon + 1..], rest))
  }

  /** A line keeps its key to itself when it has a colon, or 63 characters. */
  lemma LineRead(line: string, rest: string)
    requires ':' in line || |line| >= KEY_SIZE - 1
    ensures ReadText(line + CRLF + rest) == ReadLine(line, rest)
  {
    hide FirstValue, LineValue;
    var t, colon := line + CRLF + rest, IndexOf(line, ':');
    IndexFirst(line, ':');
    IndexFirst(t, ':');
    assert forall j | 0 <= j < |line| :: t[j] == line[j];
    if colon < |line| {
      IndexOfIs(t, ':', colon);
      assert t[..colon] == line[..colon];
      assert t[colon + 1..] == line[colon + 1..] + (CRLF + rest);
      LineValueRead(line[colon + 1..], rest);
    } else {
      LongLine(line, t, IndexOf(t, ':'));
    }
  }

  lemma LongLine(line: string, t: string, colon: nat)
    requires |line| >= KEY_SIZE - 1 && |t| >= |line| + 2 && t[..|line|] == line && |line| + 2 <= colon <= |t|
    ensures Cut(t[..colon], KEY_SIZE) == Cut(line, KEY_SIZE)
  {
    assert t[..colon][..KEY_SIZE - 1] == t[..|line|][..KEY_SIZE - 1];
  }

  /** The key read of a line stays within the line exactly then; otherwise it takes in the line end. */
  lemma KeyStays(line: string, rest: string)
    ensures |ReadText(line + CRLF + rest).key| <= |line| <==> ':' in line || |line| >= KEY_SIZE - 1
  {
    hide FirstValue;
    var t := line + CRLF + rest;
    IndexFirst(line, ':');
    IndexFirst(t, ':');
    assert forall j | 0 <= j < |line| :: t[j] == line[j];
    assert t[|line|] == '\r' && t[|line| + 1] == '\n';
  }

  /** A line without a colon takes the next line into its key. */
  lemma KeyTakesNext()
    ensures ReadText("Foo\r\nBar: x\r\n\r\n").key == "Foo\r\nBar"
  {
    hide FirstValue;
    IndexOfIs("Foo\r\nBar: x\r\n\r\n", ':', 8);
  }

  /** The key read for a printed field. */
  function NameRead(key: string): string {
    Cut(key[..IndexOf(key, ':')], KEY_SIZE)
  }

  lemma ColonOf(f: Field)
    ensures IndexOf(Content(f), ':') == IndexOf(f.key, ':') < |Content(f)|
    ensures Content(f)[..IndexOf(f.key, ':')] == f.key[..IndexOf(f.key, ':')]
  {
    var s, colon := Content(f), IndexOf(f.key, ':');
    IndexFirst(f.key, ':');
    assert s[|f.key|] == ':' && forall j | 0 <= j < |f.key| :: s[j] == f.key[j];
    IndexOfIs(s, ':', colon);
  }

  /** What is read of a printed field, for every key and every value. */
  lemma FieldRead(f: Field, rest: string)
    ensures ':' in Content(f) && ReadLine(Content(f), rest).key == NameRead(f.key)
    ensures ReadLine(Content(f), rest).value ==
              var colon := IndexOf(f.key, ':');
              if colon == 0 || colon >= KEY_SIZE then ""
              else if colon < |f.key| then FirstValue(f.key[colon + 1..] + ": " + f.value)
              else LineValue(f.value, rest)
  {
    hide FirstValue, Strip;
    var s, colon := Content(f), IndexOf(f.key, ':');
    ColonOf(f);
    IndexFirst(s, ':');
    if colon < |f.key| {
      assert s[colon + 1..] == f.key[colon + 1..] + ": " + f.value;
      ContentNotBlank(Field(f.key[colon + 1..], f.value));
    } else {
      assert s[colon + 1..] == " " + f.value;
      BlankSkipped(f.value);
    }
  }

  lemma BlankSkipped(s: string)
    ensures Strip(" " + s) == Strip(s) && FirstValue(" " + s) == FirstValue(s)
  {
    StripSkip(" ", s);
  }

  lemma ContentNotBlank(f: Field)
    ensures Strip(Content(f)) != "" && !AllSpaces(Content(f))
  {
    assert Content(f)[|f.key|] == ':';
    StripFirst(Content(f));
  }

  /** When the line `key: value`, printed before `rest`, is read back as it was (cut to its row). */
  predicate Recoverable(f: Field, rest: string) {
    var colon := IndexOf(f.key, ':');
    if colon >= KEY_SIZE || f.key == "" then f.value == ""
    else if colon < |f.key| then
      colon == KEY_SIZE - 1 && FirstValue(f.key[KEY_SIZE..] + ": " + f.value) == Cut(f.value, VALUE_SIZE)
    else if f.value == "" then AllSpaces(rest)
    else Plain(f.value) && NoBreak(Cut(f.value, VALUE_SIZE))
  }

  /** Reading undoes printing on a line exactly when the line is recoverable. */
  lemma LineRecovered(f: Field, rest: string)
    ensures ReadLine(Content(f), rest) == Kept(f.key, f.value) <==> Recoverable(f, rest)
  {
    hide FirstValue, LineValue, ReadLine;
    FieldRead(f, rest);
    ValueRecovered(f.value, rest);
  }

  lemma ValueRecovered(value: string, rest: string)
    ensures LineValue(value, rest) == Cut(value, VALUE_SIZE) <==>
            if value == "" then AllSpaces(rest) else Plain(value) && NoBreak(Cut(value, VALUE_SIZE))
  {
    StripFirst(value);
    FirstValueStarts(value);
    FirstValueStarts(rest);
    if Plain(value) {
      PlainRecovered(value);
    }
  }

  lemma FirstValueStarts(s: string)
    ensures FirstValue(s) == "" <==> AllSpaces(s)
    ensures FirstValue(s) != "" ==> !IsSpace(FirstValue(s)[0])
  {
    StripFirst(s);
    LineStarts(Strip(s));
  }

  lemma LineStarts(t: string)
    requires t == "" || !IsSpace(t[0])
    ensures Cut(FirstLine(t), VALUE_SIZE) == "" <==> t == ""
    ensures t != "" ==> |Cut(FirstLine(t), VALUE_SIZE)| > 0 && Cut(FirstLine(t), VALUE_SIZE)[0] == t[0]
  {
    SpanFromLongest(t, Except({'\r', '\n'}), 0);
  }

  lemma PlainRecovered(value: string)
    requires Plain(value)
    ensures FirstValue(value) == Cut(value, VALUE_SIZE) <==> NoBreak(Cut(value, VALUE_SIZE))
  {
    StripFirst(value);
    CutLine(value);
  }

  lemma CutLine(s: string)
    ensures Cut(FirstLine(s), VALUE_SIZE) == Cut(s, VALUE_SIZE) <==> NoBreak(Cut(s, VALUE_SIZE))
  {
    var e, n := |FirstLine(s)|, |Cut(s, VALUE_SIZE)|;
    SpanFromLongest(s, Except({'\r', '\n'}), 0);
    if e < n {
      assert Cut(s, VALUE_SIZE)[e] == s[e];
    } else {
      assert forall j | 0 <= j < n :: Cut(s, VALUE_SIZE)[j] == s[j];
    }
  }

  // ---------------------------------------------------------------- all lines

  /** What the parser reads of the lines up to the first empty one, each as far as the text goes. */
  function LinesRead(lines: seq<string>): seq<Field> {
    if lines == [] || lines[0] == "" then [] else [ReadText(Join(lines))] + LinesRead(lines[1..])
  }

  lemma OneMoreStop(text: string, p: nat, i: nat)
    requires p < |text| && !At(text, CRLF, p) && FindFrom(text, CRLF, p) == Place(i)
    ensures StopFrom(text, p) == StopFrom(text, i + 2)
  {}

  lemma OneMoreField(text: string, p: nat, i: nat)
    requires p < |text| && !At(text, CRLF, p) && FindFrom(text, CRLF, p) == Place(i)
    ensures FieldsFrom(text, p) == [ScanHeader(text, p)] + FieldsFrom(text, i + 2)
  {
    hide ScanHeader, At;
  }

  lemma LastField(text: string, p: nat)
    requires p < |text| && !At(text, CRLF, p) && FindFrom(text, CRLF, p) == Absent
    ensures FieldsFrom(text, p) == [ScanHeader(text, p)]
  {
    hide ScanHeader, At;
  }

  /** A search from a pointer sees only the text behind it. */
  lemma FindShift(text: string, p: nat)
    requires p <= |text|
    ensures Find(text[p..], CRLF).Absent? ==> FindFrom(text, CRLF, p).Absent?
    ensures Find(text[p..], CRLF).Place? ==> FindFrom(text, CRLF, p) == Place(p + Find(text[p..], CRLF).index)
  {
    FindFirst(text[p..], CRLF);
    FindFromFirst(text, CRLF, p);
    forall j: nat | p <= j ensures At(text, CRLF, j) <==> At(text[p..], CRLF, j - p) {
      AtSuffix(text, CRLF, p, j - p);
    }
    if Find(text[p..], CRLF).Place? {
      FindFromIs(text, CRLF, p, p + Find(text[p..], CRLF).index);
    }
  }

  /** The scan ends in front of an empty line. */
  lemma EmptyFirst(text: string, p: nat)
    requires p <= |text|
    ensures Split(text[p..])[0] == "" <==> p == |text| || At(text, CRLF, p)
  {
    AtSuffix(text, CRLF, p, 0);
    FindFirst(text[p..], CRLF);
  }

  lemma FieldHere(text: string, p: nat)
    requires p <= |text|
    ensures ScanHeader(text, p) == ReadText(Join(Split(text[p..])))
  {
    ScanShift(text, p);
    TextRead(text[p..]);
    SplitJoin(text[p..]);
  }

  lemma NextLines(text: string, p: nat, i: nat)
    requires p <= |text| && Find(text[p..], CRLF) == Place(i)
    ensures p + i + 2 <= |text| && Split(text[p..])[1..] == Split(text[p + i + 2..])
  {
    SplitFirst(text[p..], i);
    assert text[p..][i + 2..] == text[p + i + 2..];
  }

  /** On any text, from any point: the parser reads the lines up to the first empty one. */
  lemma {:induction false} LinesScanned(text: string, p: nat)
    requires p <= |text|
    ensures FieldsFrom(text, p) == LinesRead(Split(text[p..]))
    decreases |text| - p
  {
    hide ScanHeader, ReadText, At, Join, Find;
    EmptyFirst(text, p);
    if p < |text| && !At(text, CRLF, p) {
      FieldHere(text, p);
      FindShift(text, p);
      match Find(text[p..], CRLF) {
        case Absent =>
          SplitOne(text[p..]);
          LastField(text, p);
        case Place(i) =>
          NextLines(text, p, i);
          OneMoreField(text, p, p + i);
          LinesScanned(text, p + i + 2);
      }
    }
  }

  /** On any text: the fields kept are the first 32 lines behind the first, up to an empty one, as read. */
  lemma TextParsed(text: string)
    ensures FieldsOf(text) == Kept32(LinesRead(Split(text)[1..]))
  {
    hide FieldsFrom;
    if Find(text, CRLF).Place? {
      SplitFirst(text, Find(text, CRLF).index);
      LinesScanned(text, Find(text, CRLF).index + 2);
    } else {
      SplitOne(text);
    }
  }

  // ---------------------------------------------------------------- printed fields

  function Contents(fs: seq<Field>): seq<string> {
    seq(|fs|, i requires 0 <= i < |fs| => Content(fs[i]))
  }

  /** What follows a field as far as its value can reach: the next line, or behind the last the payload. */
  function Behind(fs: seq<Field>, i: nat, payload: string): string {
    if i + 1 < |fs| then Line(fs[i + 1]) else payload
  }

  /** The fields the parser reads. */
  function AsRead(fs: seq<Field>, payload: string): seq<Field> {
    seq(|fs|, i requires 0 <= i < |fs| => ReadLine(Content(fs[i]), Behind(fs, i, payload)))
  }

  /** The field is read back among its neighbours. */
  predicate Recovers(fs: seq<Field>, i: nat, payload: string)
    requires i < |fs|
  {
    Recoverable(fs[i], Behind(fs, i, payload))
  }

  /** The field read is the field sent, cut to its row, exactly when it recovers. */
  lemma FieldBack(fs: seq<Field>, i: nat, payload: string)
    requires i < |fs|
    ensures AsRead(fs, payload)[i] == Kept(fs[i].key, fs[i].value) <==> Recovers(fs, i, payload)
  {
    hide ReadLine, Recoverable;
    LineRecovered(fs[i], Behind(fs, i, payload));
  }

  /** For a key of 1 to 63 characters without a colon, in terms of the value. */
  lemma ValueBack(fs: seq<Field>, i: nat, payload: string)
    requires i < |fs| && 0 < |fs[i].key| < KEY_SIZE && ':' !in fs[i].key
    ensures Recovers(fs, i, payload) <==>
              if fs[i].value == "" then i == |fs| - 1 && AllSpaces(payload)
              else Plain(fs[i].value) && NoBreak(Cut(fs[i].value, VALUE_SIZE))
  {
    IndexFirst(fs[i].key, ':');
    if i + 1 < |fs| {
      var k := |fs[i + 1].key|;
      assert Line(fs[i + 1])[k] == ':';
    }
  }

  /** What a value can reach decides what is read. */
  lemma ReadSame(line: string, rest: string, rest': string)
    requires FirstValue(rest) == FirstValue(rest')
    ensures ReadLine(line, rest) == ReadLine(line, rest')
  {
    hide FirstValue;
  }

  lemma ReachesNext(f: Field, rest: string)
    ensures FirstValue(Content(f) + CRLF + rest) == FirstValue(Line(f))
  {
    hide Strip, FirstValue;
    ContentNotBlank(f);
    LineValueRead(Content(f), rest);
    LineValueRead(Content(f), "");
    assert Content(f) + (CRLF + rest) == Content(f) + CRLF + rest;
    assert Content(f) + (CRLF + "") == Line(f);
  }

  lemma ReachesPayload(payload: string)
    ensures FirstValue("" + CRLF + payload) == FirstValue(payload)
  {
    assert "" + CRLF + payload == CRLF + payload;
    StripSkip(CRLF, payload);
  }

  /** The lines a message has behind its first. */
  function LinesOf(fs: seq<Field>, payload: string): seq<string> {
    Contents(fs) + [""] + Split(payload)
  }

  lemma LinesOfCons(fs: seq<Field>, payload: string)
    requires fs != []
    ensures LinesOf(fs, payload) != [] && Content(fs[0]) != ""
    ensures LinesOf(fs, payload)[0] == Content(fs[0]) && LinesOf(fs, payload)[1..] == LinesOf(fs[1..], payload)
    ensures Join(LinesOf(fs, payload)) == Content(fs[0]) + CRLF + Join(LinesOf(fs[1..], payload))
  {
    hide Split;
    assert Contents(fs) == [Content(fs[0])] + Contents(fs[1..]);
    assert LinesOf(fs, payload) == [Content(fs[0])] + LinesOf(fs[1..], payload);
  }

  lemma Reached(fs: seq<Field>, payload: string)
    requires fs != []
    ensures FirstValue(Join(LinesOf(fs[1..], payload))) == FirstValue(Behind(fs, 0, payload))
  {
    hide FirstValue, Content, LinesOf;
    if |fs| > 1 {
      LinesOfCons(fs[1..], payload);
      ReachesNext(fs[1], Join(LinesOf(fs[1..][1..], payload)));
    } else {
      assert fs[1..] == [];
      NoFields(payload);
      ReachesPayload(payload);
    }
  }

  lemma NoFields(payload: string)
    ensures LinesOf([], payload) == [""] + Split(payload) && Join(LinesOf([], payload)) == "" + CRLF + payload
  {
    SplitJoin(payload);
    assert ([""] + Split(payload))[1..] == Split(payload);
  }

  lemma AsReadCons(fs: seq<Field>, payload: string)
    requires fs != []
    ensures AsRead(fs, payload) == [ReadLine(Content(fs[0]), Behind(fs, 0, payload))] + AsRead(fs[1..], payload)
  {
    hide ReadLine, Content, Line;
    forall i | 0 < i < |fs|
      ensures Behind(fs, i, payload) == Behind(fs[1..], i - 1, payload) && fs[i] == fs[1..][i - 1] {}
  }

  /** The printed fields are read as `AsRead` says, whatever their keys and values. */
  lemma {:induction false} FieldsRead(fs: seq<Field>, payload: string)
    ensures LinesRead(LinesOf(fs, payload)) == AsRead(fs, payload)
    decreases |fs|
  {
    hide ReadText, ReadLine, Content, LinesOf, Join, Behind;
    if fs == [] {
      NoFields(payload);
    } else {
      LinesOfCons(fs, payload);
      FieldRead(fs[0], Join(LinesOf(fs[1..], payload)));
      LineRead(Content(fs[0]), Join(LinesOf(fs[1..], payload)));
      Reached(fs, payload);
      ReadSame(Content(fs[0]), Join(LinesOf(fs[1..], payload)), Behind(fs, 0, payload));
      AsReadCons(fs, payload);
      FieldsRead(fs[1..], payload);
    }
  }

  // ---------------------------------------------------------------- whole messages

  /** The text is a start line, the printed fields, a blank line and a payload; start and fields are one line each. */
  ghost predicate Message(text: string, start: string, fs: seq<Field>, payload: string) {
    text == start + CRLF + (Lines(fs) + CRLF + payload) && OneLine(start) && AllOneLine(Contents(fs))
  }

  /** The lines of the printed fields are those of their contents, one behind the other. */
  function Pieces(fs: seq<Field>): seq<string> {
    if fs == [] then [] else Split(Content(fs[0])) + Pieces(fs[1..])
  }

  lemma {:induction false} SplitLines(fs: seq<Field>, rest: string)
    ensures Split(Lines(fs) + rest) == Pieces(fs) + Split(rest)
    decreases |fs|
  {
    hide Content, Split;
    if fs == [] {
      assert Lines(fs) + rest == rest;
    } else {
      assert Lines(fs) + rest == Content(fs[0]) + CRLF + (Lines(fs[1..]) + rest);
      SplitAppend(Content(fs[0]), Lines(fs[1..]) + rest);
      SplitLines(fs[1..], rest);
    }
  }

  /** Lines in, lines out: a message has the lines of its parts, whether or not these are one line each. */
  lemma SplitMessage(start: string, fs: seq<Field>, payload: string)
    ensures Split(start + CRLF + (Lines(fs) + CRLF + payload))
         == Split(start) + Pieces(fs) + ([""] + Split(payload))
  {
    hide Split, Pieces;
    SplitAppend(start, Lines(fs) + CRLF + payload);
    assert Lines(fs) + CRLF + payload == Lines(fs) + (CRLF + payload);
    SplitLines(fs, CRLF + payload);
    assert CRLF + payload == "" + CRLF + payload;
    SplitAppend("", payload);
    EmptyLine();
  }

  lemma EmptyLine()
    ensures Split("") == [""] && OneLine("")
  {
    FindFirst("", CRLF);
  }

  lemma {:induction false} PiecesWhole(fs: seq<Field>)
    ensures |Pieces(fs)| >= |fs|
    ensures AllOneLine(Contents(fs)) <==> |Pieces(fs)| == |fs|
    ensures AllOneLine(Contents(fs)) ==> Pieces(fs) == Contents(fs)
  {
    hide Content, Split, OneLine;
    if fs != [] {
      PiecesWhole(fs[1..]);
      SplitOne(Content(fs[0]));
      assert Contents(fs) == [Content(fs[0])] + Contents(fs[1..]);
      AllOneLineCons(Content(fs[0]), Contents(fs[1..]));
    }
  }

  lemma AllOneLineCons(line: string, lines: seq<string>)
    ensures AllOneLine([line] + lines) <==> OneLine(line) && AllOneLine(lines)
  {
    hide OneLine;
    if AllOneLine([line] + lines) {
      assert ([line] + lines)[0] == line;
      forall i | 0 <= i < |lines| ensures OneLine(lines[i]) {
        assert ([line] + lines)[i + 1] == lines[i];
      }
    }
  }

  /** Of every message the parser keeps the first 32 fields as read. */
  lemma MessageParsed(text: string, start: string, fs: seq<Field>, payload: string)
    requires Message(text, start, fs, payload)
    ensures FieldsOf(text) == Kept32(AsRead(fs, payload))
  {
    hide FieldsOf, Split, Pieces, AsRead, LinesRead;
    TextParsed(text);
    SplitMessage(start, fs, payload);
    SplitOne(start);
    PiecesWhole(fs);
    assert Split(text)[1..] == LinesOf(fs, payload);
    FieldsRead(fs, payload);
  }

  /** The parser can scan every message to its end. */
  lemma MessageScannable(start: string, fs: seq<Field>, payload: string)
    ensures Scannable(start + CRLF + (Lines(fs) + CRLF + payload))
  {
    hide Scannable;
    var t := CRLF + Lines(fs);
    LinesEnd(fs);
    assert start + CRLF + (Lines(fs) + CRLF + payload) == start + t + CRLF + payload;
    BlankScannable(start + t, payload);
  }

  lemma BlankScannable(front: string, payload: string)
    requires |front| >= 2 && front[|front| - 2] == '\r' && front[|front| - 1] == '\n'
    ensures Scannable(front + CRLF + payload)
  {
    var text := front + CRLF + payload;
    AtBlank(text, |front| - 2);
    AtCrlf(text, |front| - 2);
    AtCrlf(text, |front|);
    FindFirst(text, BLANK);
  }

  lemma {:induction false} LinesEnd(fs: seq<Field>)
    ensures var t := CRLF + Lines(fs); t[|t| - 2] == '\r' && t[|t| - 1] == '\n'
  {
    if fs != [] {
      LinesEnd(fs[1..]);
      assert CRLF + Lines(fs) == CRLF + Content(fs[0]) + (CRLF + Lines(fs[1..]));
    }
  }

  /** The first 32 fields come back as they were, cut to their rows, exactly when each recovers. */
  lemma {:induction false} AllRecovered(text: string, start: string, fs: seq<Field>, payload: string)
    requires Message(text, start, fs, payload)
    ensures FieldsOf(text) == Kept32(KeptAll(fs)) <==>
            forall i | 0 <= i < |fs| && i < MAX_HEADERS :: Recovers(fs, i, payload)
  {
    hide FieldsOf, Recovers, ReadLine;
    MessageParsed(text, start, fs, payload);
    var got, sent := Kept32(AsRead(fs, payload)), Kept32(KeptAll(fs));
    forall i | 0 <= i < |fs| && i < MAX_HEADERS ensures got[i] == sent[i] <==> Recovers(fs, i, payload) {
      FieldBack(fs, i, payload);
    }
    if got == sent {
      forall i | 0 <= i < |fs| && i < MAX_HEADERS ensures Recovers(fs, i, payload) {
        assert got[i] == sent[i];
      }
    }
  }

  function KeptAll(fs: seq<Field>): (r: seq<Field>) {
    seq(|fs|, i requires 0 <= i < |fs| => Kept(fs[i].key, fs[i].value))
  }

  /** A printed status line: the status is read back, whatever the version and the reason. */
  lemma StatusParsed(version: string, status: int, rest: string)
    requires version != "" && forall i | 0 <= i < |version| :: !IsSpace(version[i])
    requires rest == "" || !IsDigit(rest[0])
    ensures ScanStatus("HTTP/" + version + " " + DecInt(status) + rest) == Some(status)
  {
    var front := "HTTP/" + version;
    var s := front + " " + DecInt(status) + rest;
    assert At(s, "HTTP/", 0) && s[5] == version[0];
    assert forall j | 0 <= j < |version| :: s[5 + j] == version[j];
    SpanFromIs(s, Spaces, 5, 5);
    SpanFromIs(s, NonSpaces, 5, |front|);
    ScanPrinted(s, front, " ", status, rest);
  }

  /**
    A printed response (RFC 9112, sections 4 and 5): the parser returns its status and its first 32 fields as read, for
    any version without white space, any status, any reason and any number of fields without a line end; and it returns
    them as sent, cut to their rows, exactly when each recovers.
   */
  lemma {:induction false} ResponseRead(text: string, version: string, status: int, reason: string, fs: seq<Field>,
                                        payload: string)
    requires version != "" && forall i | 0 <= i < |version| :: !IsSpace(version[i])
    requires OneLine(reason) && AllOneLine(Contents(fs))
    requires text == StatusLine(version, status, reason) + CRLF + (Lines(fs) + CRLF + payload)
    ensures Scannable(text) && StatusOf(text) == status && FieldsOf(text) == Kept32(AsRead(fs, payload))
    ensures FieldsOf(text) == Kept32(KeptAll(fs)) <==>
            forall i | 0 <= i < |fs| && i < MAX_HEADERS :: Recovers(fs, i, payload)
  {
    hide FieldsOf, StatusOf, Scannable, AsRead, Recovers;
    var start := StatusLine(version, status, reason);
    StatusLineWhole(version, status, reason);
    MessageScannable(start, fs, payload);
    MessageParsed(text, start, fs, payload);
    AllRecovered(text, start, fs, payload);
    StatusLineRead(text, version, status, reason, Lines(fs) + CRLF + payload);
  }

  lemma StatusLineRead(text: string, version: string, status: int, reason: string, tail: string)
    requires version != "" && forall i | 0 <= i < |version| :: !IsSpace(version[i])
    requires text == StatusLine(version, status, reason) + CRLF + tail
    ensures StatusOf(text) == status
  {
    var front := "HTTP/" + version + " " + DecInt(status);
    StatusGlue(front, reason, tail);
    StatusParsed(version, status, " " + reason + CRLF + tail);
  }

  lemma StatusGlue(front: string, reason: string, tail: string)
    ensures front + " " + reason + CRLF + tail == front + (" " + reason + CRLF + tail)
  {}

  function StatusLine(version: string, status: int, reason: string): string {
    "HTTP/" + version + " " + DecInt(status) + " " + reason
  }

  lemma StatusLineWhole(version: string, status: int, reason: string)
    requires forall i | 0 <= i < |version| :: !IsSpace(version[i])
    requires OneLine(reason)
    ensures OneLine(StatusLine(version, status, reason))
  {
    var front := "HTTP/" + version + " " + DecInt(status) + " ";
    var s := front + reason;
    DecReads(if status < 0 then -status else status);
    assert '\r' !in version && '\r' !in DecInt(status);
    assert '\r' !in front;
    FindFirst(reason, CRLF);
    forall j: nat ensures !At(s, CRLF, j) {
      AtCrlf(s, j);
      if j < |front| {
        assert s[j] == front[j];
      } else {
        assert s[|front|..] == reason;
        AtSuffix(s, CRLF, |front|, j - |front|);
      }
    }
    FindNone(s, CRLF);
  }

  /** The fields under the names read for them: a key up to its first colon, cut to its row. */
  function Named(fs: seq<Field>): seq<Field> {
    seq(|fs|, i requires 0 <= i < |fs| => Field(NameRead(fs[i].key), fs[i].value))
  }

  /** The answer to a lookup: the value read for the earliest field of that name, if among the first 32. */
  function Answer(fs: seq<Field>, payload: string, key: string): Option<string> {
    var pos := FindKey(Named(fs), key);
    if pos == |fs| || pos >= MAX_HEADERS then None else Some(AsRead(fs, payload)[pos].value)
  }

  lemma LookupAnswers(fs: seq<Field>, payload: string, key: string)
    ensures Lookup(Kept32(AsRead(fs, payload)), key) == Answer(fs, payload, key)
  {
    hide ReadLine, NameRead;
    var got := Kept32(AsRead(fs, payload));
    forall i | 0 <= i < |got| ensures got[i].key == Named(fs)[i].key {
      FieldRead(fs[i], Behind(fs, i, payload));
    }
    if FindKey(Named(fs), key) < |got| {
      assert FindKey(got, key) == FindKey(Named(fs), key);
    }
  }

  /** First match: what a lookup in the parse of a message answers, for every key. */
  lemma {:induction false} FirstMatch(text: string, start: string, fs: seq<Field>, payload: string, key: string)
    requires Message(text, start, fs, payload)
    ensures Lookup(FieldsOf(text), key) == Answer(fs, payload, key)
  {
    hide FieldsOf, AsRead, Lookup, Message, Answer;
    MessageParsed(text, start, fs, payload);
    LookupAnswers(fs, payload, key);
  }

  /** Names of at most 63 characters without a colon are read as they are. */
  lemma NameKept(key: string)
    ensures NameRead(key) == key <==> ':' !in key && |key| < KEY_SIZE
  {
    IndexFirst(key, ':');
  }

  /** A first field left empty takes over the second, which is read as well. */
  lemma EmptyTakesNext(text: string, start: string, fs: seq<Field>, payload: string)
    requires Message(text, start, fs, payload) && |fs| == 2
    requires fs[0].value == "" && fs[0].key != fs[1].key && Plain(fs[1].value)
    requires NameRead(fs[0].key) == fs[0].key != "" && NameRead(fs[1].key) == fs[1].key != ""
    ensures Lookup(FieldsOf(text), fs[0].key) == Some(FirstValue(Line(fs[1])))
    ensures Lookup(FieldsOf(text), fs[1].key) == Some(FirstValue(fs[1].value))
  {
    hide Strip, FirstValue, FieldsOf, ReadLine, NameRead, Message, Line, Content;
    FirstMatch(text, start, fs, payload, fs[0].key);
    FirstMatch(text, start, fs, payload, fs[1].key);
    assert FindKey(Named(fs), fs[0].key) == 0 && FindKey(Named(fs), fs[1].key) == 1;
    NameKept(fs[0].key);
    NameKept(fs[1].key);
    IndexFirst(fs[0].key, ':');
    IndexFirst(fs[1].key, ':');
    FieldRead(fs[0], Line(fs[1]));
    FieldRead(fs[1], payload);
    StripFirst("");
    StripFirst(fs[1].value);
  }

  lemma TwoLines(text: string, start: string, a: Field, b: Field)
    requires text == start + CRLF + (Line(a) + Line(b) + CRLF)
    requires OneLine(start) && OneLine(Content(a)) && OneLine(Content(b))
    ensures Message(text, start, [a, b], "")
  {
    assert [a, b][1..] == [b];
    LinesOne(b);
    assert Line(a) + Line(b) + CRLF + "" == Line(a) + Line(b) + CRLF;
    assert Contents([a, b]) == [Content(a), Content(b)];
  }

  /** The value of `A`, sent empty in front of `B: c`, is read as `B: c`. */
  lemma EmptyValueTakesNext()
    ensures var text := "HTTP/1.1 200 OK\r\nA: \r\nB: c\r\n\r\n";
            Lookup(FieldsOf(text), "A") == Some("B: c") && Lookup(FieldsOf(text), "B") == Some("c")
  {
    hide Message, FieldsOf, Lookup, NameRead, FirstValue, OneLine, NoBreak;
    var text, start := "HTTP/1.1 200 OK\r\nA: \r\nB: c\r\n\r\n", "HTTP/1.1 200 OK";
    var a, b := Field("A", ""), Field("B", "c");
    assert text == start + CRLF + (Line(a) + Line(b) + CRLF);
    OneLinesAre(start, Content(a), Content(b));
    TwoLines(text, start, a, b);
    NameKept("A");
    NameKept("B");
    EmptyTakesNext(text, start, [a, b], "");
    ShortValues();
  }

  lemma ShortValues()
    ensures FirstValue(Line(Field("B", "c"))) == "B: c" && FirstValue("c") == "c"
  {
    hide FirstValue;
    ShortValue("B: c", CRLF);
    ShortValue("c", "");
    assert Line(Field("B", "c")) == "B: c" + CRLF && "c" + "" == "c";
  }

  lemma OneLinesAre(a: string, b: string, c: string)
    requires '\r' !in a && '\r' !in b && '\r' !in c
    ensures OneLine(a) && OneLine(b) && OneLine(c)
  {
    NoCrlf(a);
    NoCrlf(b);
    NoCrlf(c);
  }

  lemma ShortValue(value: string, tail: string)
    requires Plain(value) && NoBreak(value) && |value| < VALUE_SIZE && tail in {"", CRLF}
    ensures FirstValue(value + tail) == value
  {
    hide Strip, FirstLine;
    StripFirst(value + tail);
    if tail == CRLF {
      LineOnly(value);
      FirstLineEnds(value, "");
      assert value + tail == value + (CRLF + "");
    } else {
      LineOnly(value);
      assert value + tail == value;
    }
  }

  lemma LineOnly(s: string)
    requires NoBreak(s)
    ensures FirstLine(s) == s
  {
    SpanFromIs(s, Except({'\r', '\n'}), 0, |s|);
  }

  // ---------------------------------------------------------------- any text

  lemma NoEnd(text: string, start: string, line: string)
    requires text == start + CRLF + line && '\r' !in start && '\r' !in line && line != ""
    ensures HeadersEnd(text).Absent? && !Scannable(text)
  {
    NoCrlf(start);
    FindAtEnd(start, line);
    var p := |start| + 2;
    forall j: nat | p <= j ensures !At(text, CRLF, j) {
      AtCrlf(text, j);
      assert j < |text| ==> text[j] == line[j - p];
    }
    FindFromFirst(text, CRLF, p);
    ScanEnds(text);
  }

  /** The return code says whether there is a line end at all; without one nothing but the status is read. */
  lemma ReturnCode(mem: seq<char>, size: nat)
    requires Received(mem, size)
    ensures var r := ParseResponse(mem, size);
            && (r.rc == 0 <==> |Split(CStr(mem))| > 1) && (r.rc == 0 || r.rc == -1)
            && (|Split(CStr(mem))| == 1 ==> r.fields == [] && r.body == None)
  {
    hide StatusOf, FieldsFrom;
    SplitOne(CStr(mem));
  }

  lemma DropFront(text: string, p: nat, a: string, b: string)
    requires p <= |text| && text[p..] == a + b
    ensures p + |a| <= |text| && text[p + |a|..] == b
  {
    assert |text[p..]| == |text| - p;
    assert text[p + |a|..] == text[p..][|a|..];
  }

  /** The number is looked for right behind the version. */
  lemma StatusPlace(text: string, gap: string, version: string, tail: string)
    requires |text| >= 5 && text[..5] == "HTTP/" && text[5..] == gap + (version + tail)
    requires AllSpaces(gap) && version != "" && forall i | 0 <= i < |version| :: !IsSpace(version[i])
    requires tail == "" || IsSpace(tail[0])
    ensures var e := 5 + |gap| + |version|; e <= |text| && text[e..] == tail && StatusOf(text) == Atoi(text, e)
  {
    hide SpanFrom, ScanInt;
    assert At(text, "HTTP/", 0) by {
      assert forall k | 0 <= k < 5 :: text[k] == text[..5][k];
    }
    SpanOver(text, Spaces, 5, gap, version + tail);
    DropFront(text, 5, gap, version + tail);
    SpanOver(text, NonSpaces, 5 + |gap|, version, tail);
    DropFront(text, 5 + |gap|, version, tail);
  }

  /** The status is the number behind the version, with or without a line end behind it; 0 if there is no number. */
  lemma StatusRead(mem: seq<char>, size: nat, gap: string, version: string, blanks: string, sign: string,
                   digits: string, rest: string)
    requires Received(mem, size) && NumberText(blanks, sign, digits, rest)
    requires CStr(mem) == "HTTP/" + (gap + (version + (blanks + (sign + (digits + rest)))))
    requires AllSpaces(gap) && version != "" && forall i | 0 <= i < |version| :: !IsSpace(version[i])
    requires blanks == "" ==> sign + (digits + rest) == ""
    ensures ParseResponse(mem, size).status == Signed(sign, digits)
  {
    hide FieldsOf, BodyIn, StatusOf, Atoi, CStr, Signed;
    var text, tail := CStr(mem), blanks + (sign + (digits + rest));
    assert text[..5] == "HTTP/" && text[5..] == gap + (version + tail);
    BlankFirst(blanks, sign + (digits + rest));
    StatusPlace(text, gap, version, tail);
    AtoiReads(text, 5 + |gap| + |version|, blanks, sign, digits, rest);
  }

  lemma BlankFirst(blanks: string, t: string)
    requires AllSpaces(blanks) && (blanks == "" ==> t == "")
    ensures blanks + t == "" || IsSpace((blanks + t)[0])
  {}

  /** Any other start of the text, or no version, leaves the status 0. */
  lemma StatusMissing(mem: seq<char>, size: nat)
    requires Received(mem, size)
    requires var text := CStr(mem); |text| < 5 || text[..5] != "HTTP/" || AllSpaces(text[5..])
    ensures ParseResponse(mem, size).status == 0
  {
    hide FieldsOf, BodyIn, SpanFrom;
    var text := CStr(mem);
    if At(text, "HTTP/", 0) {
      assert text[..5] == "HTTP/";
      assert text[5..] == text[5..] + "";
      SpanOver(text, Spaces, 5, text[5..], "");
      SpanOver(text, NonSpaces, |text|, "", "");
    }
  }

  /** A response with a body the parser keeps, octet by octet. */
  lemma WholeResponse()
    ensures var text := "HTTP/1.1 404 Not Found\r\nA: b\r\n\r\n\r\nbody";
            Received(text + ['\0'], |text|) && ParseResponse(text + ['\0'], |text|)
              == ResponseValue(0, 404, [Field("A", "b")], Some("body"))
  {
    hide StatusOf, FieldsOf, Received, Split, ParseResponse, BodyIn;
    var text, start, f := "HTTP/1.1 404 Not Found\r\nA: b\r\n\r\n\r\nbody", "HTTP/1.1 404 Not Found", Field("A", "b");
    var mem := text + ['\0'];
    WholeText(text, start, f);
    InBuffer(text);
    WholeParts(mem, text, start, f);
  }

  lemma WholeText(text: string, start: string, f: Field)
    requires text == "HTTP/1.1 404 Not Found\r\nA: b\r\n\r\n\r\nbody"
    requires start == "HTTP/1.1 404 Not Found" && f == Field("A", "b")
    ensures text == start + CRLF + (Line(f) + CRLF + (CRLF + "body")) && '\r' !in start && '\0' !in text
    ensures start == "HTTP/" + "1.1" + " " + "404" + " " + "Not Found"
  {
    LineOfA(f);
    WholeStart(start);
    var rest := "A: b\r\n\r\n\r\nbody";
    assert rest == "A: b\r\n" + CRLF + (CRLF + "body") && '\0' !in rest;
    assert text == start + CRLF + rest;
  }

  lemma LineOfA(f: Field)
    requires f == Field("A", "b")
    ensures Line(f) == "A: b\r\n"
  {}

  lemma WholeStart(start: string)
    requires start == "HTTP/1.1 404 Not Found"
    ensures '\r' !in start && '\0' !in start
    ensures start == "HTTP/" + "1.1" + " " + "404" + " " + "Not Found"
  {}

  lemma InBuffer(text: string)
    requires '\0' !in text
    ensures Received(text + ['\0'], |text|) && CStr(text + ['\0']) == text
    ensures ParseResponse(text + ['\0'], |text|).fields == FieldsOf(text)
    ensures ParseResponse(text + ['\0'], |text|).status == StatusOf(text)
    ensures ParseResponse(text + ['\0'], |text|).rc == if Find(text, CRLF).Absent? then -1 else 0
  {
    hide FieldsOf, StatusOf, Find, BodyIn;
    assert (text + ['\0'])[..|text|] == text;
    CStrIs(text + ['\0'], text);
  }

  lemma WholeParts(mem: seq<char>, text: string, start: string, f: Field)
    requires text == start + CRLF + (Line(f) + CRLF + (CRLF + "body")) && '\r' !in start && '\0' !in text
    requires start == "HTTP/" + "1.1" + " " + "404" + " " + "Not Found" && f == Field("A", "b")
    requires mem == text + ['\0'] && Received(mem, |text|) && CStr(mem) == text
    requires ParseResponse(mem, |text|).fields == FieldsOf(text) && ParseResponse(mem, |text|).status == StatusOf(text)
    requires ParseResponse(mem, |text|).rc == if Find(text, CRLF).Absent? then -1 else 0
    ensures ParseResponse(mem, |text|) == ResponseValue(0, 404, [f], Some("body"))
  {
    hide StatusOf, FieldsOf, Received, ParseResponse, Find, Line, Recovers, KeptAll, AsRead;
    DigitsOf404();
    NoCrlf(start);
    WholeFields(text, start, f);
    FindAtEnd(start, Line(f) + CRLF + (CRLF + "body"));
    WholeBody(mem, text, start, f);
  }

  lemma DigitsOf404()
    ensures DecInt(404) == "404"
  {
    assert Dec(4) == "4" && Dec(40) == Dec(4) + "0" && Dec(404) == Dec(40) + "4";
  }

  lemma WholeFields(text: string, start: string, f: Field)
    requires text == start + CRLF + (Line(f) + CRLF + (CRLF + "body")) && DecInt(404) == "404"
    requires start == "HTTP/" + "1.1" + " " + "404" + " " + "Not Found" && f == Field("A", "b")
    ensures StatusOf(text) == 404 && FieldsOf(text) == [f]
  {
    hide StatusOf, FieldsOf, Recovers, AsRead, OneLine, DecInt, Content, Line;
    LinesOne(f);
    NoEnds(f);
    assert Contents([f]) == [Content(f)];
    ResponseRead(text, "1.1", 404, "Not Found", [f], CRLF + "body");
    RecoversOnly(f, CRLF + "body");
    assert KeptAll([f]) == [Kept("A", "b")] == [f];
  }

  lemma NoEnds(f: Field)
    requires f == Field("A", "b")
    ensures OneLine(Content(f)) && OneLine("Not Found")
  {
    hide OneLine;
    assert Content(f) == "A: b";
    OneLinesAre("A: b", "Not Found", "");
  }

  lemma RecoversOnly(f: Field, payload: string)
    requires f == Field("A", "b")
    ensures Recovers([f], 0, payload)
  {
    hide Recovers;
    ValueBack([f], 0, payload);
  }

  lemma WholeBody(mem: seq<char>, text: string, start: string, f: Field)
    requires text == start + CRLF + (Line(f) + CRLF + (CRLF + "body")) && '\r' !in start && f == Field("A", "b")
    requires mem == text + ['\0'] && Received(mem, |text|) && CStr(mem) == text
    ensures ParseResponse(mem, |text|).body == Some("body")
  {
    hide StatusOf, FieldsOf, Received, BodyStart;
    var h := |text| - 6;
    FirstBlank(text, start, f, h);
    assert text[h..] == CRLF + "body";
    AtCrlf(CRLF + "body", 0);
    PayloadKept(text);
    assert mem[h + 2..|text|] == "body";
  }

  lemma FirstBlank(text: string, start: string, f: Field, h: nat)
    requires text == start + CRLF + (Line(f) + CRLF + (CRLF + "body")) && '\r' !in start && f == Field("A", "b")
    requires h == |text| - 6
    ensures h >= 4 && Find(text, BLANK) == Place(h - 4)
  {
    hide Find;
    var c := Content(f);
    assert c == "A: b";
    assert text == start + CRLF + (c + (CRLF + CRLF) + (CRLF + "body"));
    BlankBehindLine(text, start, c, CRLF + "body");
  }

  /** The blank line behind a start line and one header line. */
  lemma BlankBehindLine(text: string, start: string, c: string, rest: string)
    requires text == start + CRLF + (c + (CRLF + CRLF) + rest) && '\r' !in start && '\r' !in c && c != ""
    ensures Find(text, BLANK) == Place(|start| + 2 + |c|)
  {
    hide At;
    var n, m := |start|, |start| + 2 + |c|;
    assert text[..n] == start && text[n + 2..m] == c;
    forall k | 0 <= k < m && k != n && k != n + 1 ensures text[k] != '\r' {
      assert k < n ==> text[k] == text[..n][k];
      assert k >= n + 2 ==> text[k] == text[n + 2..m][k - n - 2];
    }
    assert text[n] == '\r' && text[n + 1] == '\n';
    AtBlank(text, m);
    AtCrlf(text, m);
    AtCrlf(text, m + 2);
    forall j: nat | j < m ensures !At(text, BLANK, j) {
      AtBlank(text, j);
      AtCrlf(text, j);
      AtCrlf(text, j + 2);
    }
    FindIs(text, BLANK, m);
  }

  /** A header line without its end: the scan of the lines does not come to one. */
  lemma UnendedLine()
    ensures var text := "HTTP/1.1 200 OK\r\nA: b"; HeadersEnd(text).Absent? && !Scannable(text)
  {
    hide HeadersEnd, Scannable;
    NoEnd("HTTP/1.1 200 OK\r\nA: b", "HTTP/1.1 200 OK", "A: b");
  }

  /** The number of line ends that start between `p` and `q`. */
  function LineEnds(text: string, p: nat, q: nat): nat
    decreases q - p
  {
    if p >= q then 0 else (if At(text, CRLF, p) then 1 else 0) + LineEnds(text, p + 1, q)
  }

  lemma {:induction false} LineEndsSplit(text: string, p: nat, m: nat, q: nat)
    requires p <= m <= q
    ensures LineEnds(text, p, q) == LineEnds(text, p, m) + LineEnds(text, m, q)
    decreases m - p
  {
    if p < m {
      LineEndsSplit(text, p + 1, m, q);
    }
  }

  lemma {:induction false} NoLineEnds(text: string, p: nat, q: nat)
    requires forall j: nat | p <= j < q :: !At(text, CRLF, j)
    ensures LineEnds(text, p, q) == 0
    decreases q - p
  {
    if p < q {
      NoLineEnds(text, p + 1, q);
    }
  }

  /** On any text the scan passes as many lines as there are line ends before its stop. */
  lemma {:induction false} ScanCountsLines(text: string, p: nat)
    requires p <= |text| && StopFrom(text, p).Place?
    ensures p <= StopFrom(text, p).index
    ensures |FieldsFrom(text, p)| == LineEnds(text, p, StopFrom(text, p).index)
    decreases |text| - p
  {
    if p < |text| && !At(text, CRLF, p) {
      var i := FindFrom(text, CRLF, p).index;
      OneMoreStop(text, p, i);
      OneMoreField(text, p, i);
      ScanCountsLines(text, i + 2);
      FirstLineEnd(text, p, i, StopFrom(text, i + 2).index);
    }
  }

  lemma FirstLineEnd(text: string, p: nat, i: nat, q: nat)
    requires p <= |text| && FindFrom(text, CRLF, p) == Place(i) && i + 2 <= q
    ensures p <= i && LineEnds(text, p, q) == 1 + LineEnds(text, i + 2, q)
  {
    FindFromFirst(text, CRLF, p);
    NoLineEnds(text, p, i);
    LineEndsSplit(text, p, i, q);
    OneLineEnd(text, i, q);
  }

  lemma OneLineEnd(text: string, i: nat, q: nat)
    requires At(text, CRLF, i) && i + 2 <= q
    ensures LineEnds(text, i, q) == 1 + LineEnds(text, i + 2, q)
  {
    AtCrlf(text, i);
    AtCrlf(text, i + 1);
    assert LineEnds(text, i + 1, q) == LineEnds(text, i + 2, q);
  }

  /**
    On any text: a body, if kept, is the end of what was received, right behind the first blank line at or after the
    scan's stop.
   */
  lemma BodyIsTail(mem: seq<char>, size: nat)
    requires Received(mem, size) && HeadersEnd(CStr(mem)).Place?
    ensures var text, stop, body := CStr(mem), HeadersEnd(CStr(mem)).index, ParseResponse(mem, size).body;
            && (body.None? ==> forall j: nat | stop <= j :: !At(text, BLANK, j))
            && (body.Some? ==>
                  var start := size - |body.value|;
                  && stop + 4 <= start <= |text| && At(text, BLANK, start - 4)
                  && (forall j: nat | stop <= j < start - 4 :: !At(text, BLANK, j))
                  && body.value == mem[start..size])
  {
    StopsInsideText(CStr(mem));
    FindFromFirst(CStr(mem), BLANK, HeadersEnd(CStr(mem)).index);
  }

  /** The table holds as many fields as there are line ends between the status line and the stop, up to 32. */
  lemma FieldsCounted(text: string)
    requires HeadersEnd(text).Place?
    ensures var lines := LineEnds(text, Find(text, CRLF).index + 2, HeadersEnd(text).index);
            |FieldsOf(text)| == if lines <= 32 then lines else 32
  {
    ScanCountsLines(text, Find(text, CRLF).index + 2);
  }

  // ---------------------------------------------------------------- the payload

  /** Where the kept part of a payload starts: behind its leading line end or its first blank line. */
  function KeptFrom(payload: string): Index {
    if At(payload, CRLF, 0) then Place(2)
    else
      match Find(payload, BLANK)
      case Absent => Absent
      case Place(j) => Place(j + 4)
  }

  /** From behind a line end, the header lines end in the middle of the first blank line. */
  lemma {:induction false} StopAtBlank(text: string, p: nat, b: nat)
    requires 2 <= p <= |text| && At(text, CRLF, p - 2) && Find(text, BLANK) == Place(b) && p - 2 <= b
    ensures StopFrom(text, p) == Place(b + 2)
    decreases |text| - p
  {
    AtCrlf(text, p - 2);
    AtCrlf(text, b);
    AtBlank(text, b);
    AtBlank(text, p - 2);
    FindFirst(text, BLANK);
    if At(text, CRLF, p) {
    } else {
      FindFromFirst(text, CRLF, p);
      var i := FindFrom(text, CRLF, p).index;
      StopAtBlank(text, i + 2, b);
    }
  }

  /** The header lines of any text with a blank line end in the middle of the first. */
  lemma EndsAtBlank(text: string)
    requires Find(text, BLANK).Place?
    ensures HeadersEnd(text) == Place(Find(text, BLANK).index + 2)
  {
    var b := Find(text, BLANK).index;
    AtBlank(text, b);
    FindFirst(text, CRLF);
    StopAtBlank(text, Find(text, CRLF).index + 2, b);
  }

  /** What becomes of the payload behind the first blank line of any text. */
  lemma PayloadKept(text: string)
    requires Find(text, BLANK).Place?
    ensures var h := Find(text, BLANK).index + 4;
            && (KeptFrom(text[h..]).Absent? ==> BodyStart(text).Absent?)
            && (KeptFrom(text[h..]).Place? ==> BodyStart(text) == Place(h + KeptFrom(text[h..]).index))
  {
    var h := Find(text, BLANK).index + 4;
    EndsAtBlank(text);
    AtBlank(text, h - 4);
    BodyFrom(text, text[h..], h);
  }

  lemma BodyFrom(text: string, payload: string, h: nat)
    requires 2 <= h <= |text| && text[h..] == payload && At(text, CRLF, h - 2) && HeadersEnd(text) == Place(h - 2)
    ensures KeptFrom(payload).Absent? ==> BodyStart(text).Absent?
    ensures KeptFrom(payload).Place? ==> BodyStart(text) == Place(h + KeptFrom(payload).index)
  {
    hide HeadersEnd;
    AtBlank(text, h - 2);
    AtBlank(text, h - 1);
    AtCrlf(text, h - 1);
    AtCrlf(text, h - 2);
    AtSuffix(text, CRLF, h, 0);
    if At(text, CRLF, h) {
      FindFromIs(text, BLANK, h - 2, h - 2);
    } else {
      BlankBehind(text, payload, h);
    }
  }

  lemma BlankBehind(text: string, payload: string, h: nat)
    requires 2 <= h <= |text| && text[h..] == payload && !At(text, BLANK, h - 2) && !At(text, BLANK, h - 1)
    ensures Find(payload, BLANK).Absent? ==> FindFrom(text, BLANK, h - 2).Absent?
    ensures Find(payload, BLANK).Place? ==> FindFrom(text, BLANK, h - 2) == Place(h + Find(payload, BLANK).index)
  {
    FindFromFirst(text, BLANK, h - 2);
    FindFirst(payload, BLANK);
    forall j: nat | h <= j ensures At(payload, BLANK, j - h) <==> At(text, BLANK, j) {
      AtSuffix(text, BLANK, h, j - h);
    }
    if Find(payload, BLANK).Place? {
      FindFromIs(text, BLANK, h - 2, h + Find(payload, BLANK).index);
    }
  }

  /** On any text with a blank line: the octets behind the first come back as the body exactly when there are none. */
  lemma PayloadRecovered(mem: seq<char>, size: nat)
    requires Received(mem, size) && Find(CStr(mem), BLANK).Place?
    ensures var body, sent := ParseResponse(mem, size).body, mem[Find(CStr(mem), BLANK).index + 4..size];
            (if body.None? then [] else body.value) == sent <==> sent == []
  {
    hide FieldsOf, StatusOf, BodyStart;
    PayloadKept(CStr(mem));
    KeptShorter(CStr(mem)[Find(CStr(mem), BLANK).index + 4..]);
  }

  lemma NothingKept(text: string, start: string, payload: string)
    requires text == start + CRLF + (CRLF + payload) && '\r' !in start && '\r' !in payload && '\0' !in text
    ensures Received(text + ['\0'], |text|)
    ensures ParseResponse(text + ['\0'], |text|).rc == 0 && ParseResponse(text + ['\0'], |text|).body == None
  {
    hide StatusOf, FieldsOf, BodyStart;
    assert (text + ['\0'])[..|text|] == text;
    CStrIs(text + ['\0'], text);
    NoCrlf(start);
    FindAtEnd(start, CRLF + payload);
    OnlyBlank(text, start, payload);
    NoBlank(payload);
    PayloadKept(text);
  }

  lemma OnlyBlank(text: string, start: string, payload: string)
    requires text == start + CRLF + (CRLF + payload) && '\r' !in start
    ensures Find(text, BLANK) == Place(|start|) && text[|start| + 4..] == payload
  {
    AtBlank(text, |start|);
    AtCrlf(text, |start|);
    AtCrlf(text, |start| + 2);
    forall j: nat | j < |start| ensures !At(text, BLANK, j) {
      AtBlank(text, j);
      AtCrlf(text, j);
      assert text[j] == start[j];
    }
    FindIs(text, BLANK, |start|);
  }

  lemma NoBlank(payload: string)
    requires '\r' !in payload
    ensures KeptFrom(payload).Absent?
  {
    forall j: nat ensures !At(payload, BLANK, j) {
      AtBlank(payload, j);
      AtCrlf(payload, j);
    }
    FindNone(payload, BLANK);
    AtCrlf(payload, 0);
  }

  /** An ordinary response whose body is not kept. */
  lemma PayloadLost()
    ensures var text := "HTTP/1.1 200 OK\r\n\r\nhello";
            && Received(text + ['\0'], |text|)
            && ParseResponse(text + ['\0'], |text|).rc == 0 && ParseResponse(text + ['\0'], |text|).body == None
  {
    hide Received, ParseResponse;
    NothingKept("HTTP/1.1 200 OK\r\n\r\nhello", "HTTP/1.1 200 OK", "hello");
  }

  lemma KeptShorter(payload: string)
    ensures KeptFrom(payload).Place? ==> 2 <= KeptFrom(payload).index <= |payload|
  {}
}
