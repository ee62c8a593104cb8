/** What the parser, as the receiver of a built request, makes of it. */
module ReceiverLaws {
  import opened CText
  import opened Decimal
  import opened HeaderTable
  import opened Request
  import opened RequestRuns
  import opened Render
  import opened Response
  import opened ResponseLaws
  import opened TextLines
  import opened RequestLaws

  // ---------------------------------------------------------------- the parse

  /** A built request in a receiver's memory, ended by a NUL. */
  ghost predicate InMemory(mem: seq<char>, size: nat, v: RequestValue) {
    size == |Rendered(v)| < |mem| && mem[..size] == Rendered(v) && mem[size] == '\0'
  }

  /** The part of the body a C string shows. */
  function Shown(octets: seq<char>): string {
    CStr(octets + ['\0'])
  }

  predicate FieldsText(fs: seq<Field>) {
    forall i | 0 <= i < |fs| :: '\0' !in fs[i].key && '\0' !in fs[i].value
  }

  lemma EmittedText(v: RequestValue)
    requires Stored(v)
    ensures FieldsText(Emitted(v))
  {
    hide HostField, Dec, ValidMethod;
    HostText(v, '\0');
    HostKey(v);
    DigitsText(|v.octets|);
    FieldText(HostField(v));
    TypeText(v.contentType);
    assert FieldsText(v.fields);
    assert FieldsText(Supplied(v));
    assert FieldsText(BodyFields(v));
  }

  lemma FieldText(f: Field)
    requires f.key == "Host" && '\0' !in f.value
    ensures FieldsText([f])
  {}

  lemma {:induction false} LinesText(fs: seq<Field>)
    requires FieldsText(fs)
    ensures '\0' !in Lines(fs)
  {
    if fs != [] {
      LinesText(fs[1..]);
      assert '\0' !in Line(fs[0]);
    }
  }

  lemma HeadText(v: RequestValue)
    requires Stored(v)
    ensures '\0' !in Head(v)
  {
    hide Emitted, Lines, TargetPath;
    EmittedText(v);
    HostText(v, '\0');
    LinesText(Emitted(v));
    assert '\0' !in v.verb;
  }

  lemma TextInMemory(mem: seq<char>, size: nat, v: RequestValue)
    requires InMemory(mem, size, v) && '\0' !in Head(v)
    ensures Received(mem, size) && CStr(mem) == Head(v) + Shown(v.octets)
  {
    hide Head, CStr;
    var s := Head(v) + Shown(v.octets);
    var n := |Shown(v.octets)|;
    assert (v.octets + ['\0'])[|v.octets|] == '\0';
    assert n <= |v.octets|;
    assert Rendered(v) + ['\0'] == mem[..size + 1];
    assert mem[..|s|] == (Rendered(v) + ['\0'])[..|s|] == s;
    assert mem[|s|] == (Rendered(v) + ['\0'])[|s|] == (v.octets + ['\0'])[n];
    CStrIs(mem, s);
  }

  lemma NoStatus(text: string)
    requires text != "" && text[0] != 'H'
    ensures StatusOf(text) == 0
  {
    AtFront(text, "HTTP/");
  }

  lemma AtFront(s: string, pat: string)
    requires pat != "" && s != ""
    ensures At(s, pat, 0) ==> s[0] == pat[0]
  {
    assert At(s, pat, 0) ==> s[0 + 0] == pat[0];
  }

  /** What the receiver sees as text: the head and the shown part of the body. */
  lemma ShownParts(v: RequestValue)
    ensures Head(v) + Shown(v.octets) == RequestLine(v) + CRLF + (Lines(Emitted(v)) + CRLF + Shown(v.octets))
  {
    hide RequestLine, Lines, Emitted, Shown;
    HeadGlue(RequestLine(v), Lines(Emitted(v)), Shown(v.octets));
  }

  lemma ReceivedLines(v: RequestValue)
    ensures Split(Head(v) + Shown(v.octets))[1..] == HeaderPieces(v) + ([""] + Split(Shown(v.octets)))
  {
    hide RequestLine, Emitted, Head, Split, Pieces, Shown;
    ShownParts(v);
    SplitMessage(RequestLine(v), Emitted(v), Shown(v.octets));
    LinesGlue(Split(RequestLine(v)), Pieces(Emitted(v)), [""] + Split(Shown(v.octets)));
  }

  lemma StartText(v: RequestValue)
    requires ValidMethod(v.verb)
    ensures Head(v) != "" && Head(v)[0] != 'H'
  {
    assert v.verb[0] != 'H' && Head(v)[0] == v.verb[0];
  }

  /**
    The parser on the text of any built request, line ends inside its parts included: it returns 0 with status 0 and
    the first 32 of the lines between start line and empty line, as read.
   */
  lemma BuiltRequestParsed(mem: seq<char>, size: nat, v: RequestValue)
    requires Stored(v) && InMemory(mem, size, v)
    ensures Received(mem, size) && Scannable(CStr(mem))
    ensures ParseResponse(mem, size).rc == 0 && ParseResponse(mem, size).status == 0
    ensures ParseResponse(mem, size).fields
         == Kept32(LinesRead(HeaderPieces(v) + ([""] + Split(Shown(v.octets)))))
  {
    hide Head, Split, Shown, HeaderPieces, FieldsOf, StatusOf, LinesRead, RequestLine, Emitted, InMemory, BodyIn;
    HeadText(v);
    TextInMemory(mem, size, v);
    ShownParts(v);
    MessageScannable(RequestLine(v), Emitted(v), Shown(v.octets));
    var text := Head(v) + Shown(v.octets);
    ReceivedLines(v);
    TextParsed(text);
    StartText(v);
    NoStatus(text);
    SplitHasEnd(text);
  }

  lemma SplitHasEnd(text: string)
    ensures |Split(text)[1..]| > 0 ==> Find(text, CRLF).Place?
  {
    if OneLine(text) {
      SplitOne(text);
    }
  }

  /** If no part is split, these are the emitted fields, as read. */
  lemma UnsplitRequestParsed(mem: seq<char>, size: nat, v: RequestValue)
    requires Stored(v) && Unsplit(v) && InMemory(mem, size, v)
    ensures Received(mem, size) && Scannable(CStr(mem))
    ensures ParseResponse(mem, size).fields == Kept32(AsRead(Emitted(v), Shown(v.octets)))
  {
    hide Split, Shown, HeaderPieces, Emitted, LinesRead, InMemory, Stored, Unsplit, AsRead, Contents, ParseResponse;
    BuiltRequestParsed(mem, size, v);
    UnsplitPieces(v);
    FieldsRead(Emitted(v), Shown(v.octets));
    var fs, payload := Emitted(v), Shown(v.octets);
    assert LinesOf(fs, payload) == Contents(fs) + ([""] + Split(payload));
  }

  // ---------------------------------------------------------------- end to end

  /**
    The answer to a lookup of a key emitted at `pos` among `fs` with `value`. A key with a colon, or of 64 characters or
    more, is never found. Any other is found at the first field read under that name, if among the first 32. If that is
    its own field, the value, cut to its row, comes back exactly when it starts with something other than white space
    and holds no line break up to the cut, or is empty and its line ends the head.
   */
  ghost predicate Answers(found: Option<string>, key: string, value: string, fs: seq<Field>, pos: nat, payload: string)
    requires pos < |fs|
  {
    var first := FindKey(Named(fs), key);
    && found == Answer(fs, payload, key)
    && (':' in key || |key| >= KEY_SIZE ==> found == None)
    && (':' !in key && |key| < KEY_SIZE ==> first <= pos)
    && (first == pos < MAX_HEADERS && key != "" ==>
          (found == Some(Cut(value, VALUE_SIZE)) <==>
           if value == "" then pos == |fs| - 1 else Plain(value) && NoBreak(Cut(value, VALUE_SIZE))))
  }

  lemma NeverNamed(fs: seq<Field>, key: string)
    requires ':' in key || |key| >= KEY_SIZE
    ensures FindKey(Named(fs), key) == |fs|
  {
    hide NameRead;
    var pos := FindKey(Named(fs), key);
    if pos < |fs| {
      NameShort(fs[pos].key);
      assert false;
    }
  }

  lemma NameShort(key: string)
    ensures ':' !in NameRead(key) && |NameRead(key)| < KEY_SIZE
  {
    IndexFirst(key, ':');
  }

  lemma OwnName(fs: seq<Field>, pos: nat, key: string)
    requires pos < |fs| && fs[pos].key == key && ':' !in key && |key| < KEY_SIZE
    ensures FindKey(Named(fs), key) <= pos
  {
    hide NameRead;
    NameKept(key);
    assert Named(fs)[pos].key == key;
  }

  lemma OwnValue(fs: seq<Field>, pos: nat, payload: string, value: string)
    requires pos < |fs| && pos < MAX_HEADERS && fs[pos].value == Cut(value, VALUE_SIZE)
    requires 0 < |fs[pos].key| < KEY_SIZE && FindKey(Named(fs), fs[pos].key) == pos
    requires pos == |fs| - 1 ==> payload == ""
    ensures Answer(fs, payload, fs[pos].key) == Some(Cut(value, VALUE_SIZE)) <==>
            if value == "" then pos == |fs| - 1 else Plain(value) && NoBreak(Cut(value, VALUE_SIZE))
  {
    hide ReadLine, NameRead, Recovers, Behind;
    var f, key := fs[pos], fs[pos].key;
    NameKept(key);
    assert Named(fs)[pos].key == key;
    FieldBack(fs, pos, payload);
    ValueBack(fs, pos, payload);
    FieldRead(f, Behind(fs, pos, payload));
    assert Kept(key, f.value) == Field(key, Cut(value, VALUE_SIZE));
  }

  lemma FieldAnswered(fs: seq<Field>, pos: nat, payload: string, key: string, value: string)
    requires pos < |fs| && fs[pos] == Kept(key, value) && (pos == |fs| - 1 ==> payload == "")
    ensures Answers(Answer(fs, payload, key), key, value, fs, pos, payload)
  {
    hide ReadLine, NameRead, Plain, NoBreak;
    if ':' in key || |key| >= KEY_SIZE {
      NeverNamed(fs, key);
    } else {
      OwnName(fs, pos, key);
      if FindKey(Named(fs), key) == pos < MAX_HEADERS && key != "" {
        OwnValue(fs, pos, payload, value);
      }
    }
  }

  /** The `t`-th stored field among those emitted; only without a body can it be the last. */
  lemma FieldPlace(v: RequestValue, t: nat)
    requires t < |v.fields|
    ensures var fs, pos := Emitted(v), |Supplied(v)| + t;
            pos < |fs| && fs[pos] == v.fields[t] && (pos == |fs| - 1 ==> Shown(v.octets) == "")
  {}

  /**
    End to end over whole runs with arguments of any kind, as long as the table stays a map and no line is split: the
    lookup of the `t`-th distinct key in the parse of the built request.
   */
  lemma {:induction false} EndToEnd(verb: string, url: string, ops: seq<Op>, v: RequestValue, sets: seq<Field>,
                                    mem: seq<char>, size: nat, t: nat)
    requires ValidMethod(verb) && '\0' !in url && TextOps(ops)
    requires v == Run(Initial(verb, url), ops) && sets == LiveSets(ops) && SafeRun(ops) && Unsplit(v)
    requires InMemory(mem, size, v) && t < |OrderedMap(sets)|
    ensures Received(mem, size) && Scannable(CStr(mem))
    ensures var fs, pos, key := Emitted(v), |Supplied(v)| + t, Distinct(sets)[t];
            && pos < |fs| && fs[pos] == Kept(key, Last(sets, key))
            && Answers(Lookup(ParseResponse(mem, size).fields, key), key, Last(sets, key), fs, pos, Shown(v.octets))
  {
    hide Run, Initial, LiveSets, SafeRun, InMemory, Unsplit, Stored, Emitted, Supplied, Shown, AsRead;
    hide ParseResponse, Received, Scannable, Lookup, Answers, Answer, ValidMethod;
    RunStored(verb, url, ops);
    SafeRunIsMap(verb, url, ops);
    UnsplitRequestParsed(mem, size, v);
    FieldPlace(v, t);
    var key := Distinct(sets)[t];
    LookupAnswers(Emitted(v), Shown(v.octets), key);
    FieldAnswered(Emitted(v), |Supplied(v)| + t, Shown(v.octets), key, Last(sets, key));
  }

  /** Keys of 1 to 63 characters without a colon. */
  predicate PlainKeys(sets: seq<Field>) {
    forall i | 0 <= i < |sets| :: 0 < |sets[i].key| < KEY_SIZE && ':' !in sets[i].key
  }

  /** With such keys every lookup ends at its own field. */
  lemma PlainKeysFound(v: RequestValue, sets: seq<Field>, t: nat)
    requires v.fields == OrderedMap(sets) && t < |v.fields| && PlainKeys(sets)
    ensures FindKey(Named(Emitted(v)), Distinct(sets)[t]) == |Supplied(v)| + t
  {
    hide NameRead, Supplied, BodyFields;
    OwnKeys(v);
    var fs, pos, key := Emitted(v), |Supplied(v)| + t, Distinct(sets)[t];
    MapKeys(sets, v.fields);
    FirstEmitted(v, t);
    forall i | 0 <= i <= pos ensures Named(fs)[i].key == fs[i].key {
      if i < |Supplied(v)| {
        assert fs[i] == Supplied(v)[i];
      } else {
        assert fs[i] == v.fields[i - |Supplied(v)|];
      }
      NameKept(fs[i].key);
    }
  }

  /** The first field emitted with a user's key is the user's. */
  lemma FirstEmitted(v: RequestValue, t: nat)
    requires t < |v.fields| && DistinctKeys(v.fields)
    ensures var fs, pos := Emitted(v), |Supplied(v)| + t;
            pos < |fs| && fs[pos] == v.fields[t] && FindKey(fs, v.fields[t].key) == pos
  {
    var key := v.fields[t].key;
    assert HasKey(v.fields, key);
    var fs, pos := Emitted(v), |Supplied(v)| + t;
    assert fs[pos] == v.fields[t];
    forall i | 0 <= i < pos ensures fs[i].key != key {
      if i < |Supplied(v)| {
        assert fs[i] == Supplied(v)[i];
      } else {
        assert fs[i] == v.fields[i - |Supplied(v)|];
      }
    }
  }

  lemma MapKeys(sets: seq<Field>, fs: seq<Field>)
    requires fs == OrderedMap(sets) && PlainKeys(sets)
    ensures DistinctKeys(fs)
    ensures forall i | 0 <= i < |fs| ::
      && 0 < |Distinct(sets)[i]| < KEY_SIZE && ':' !in Distinct(sets)[i]
      && fs[i] == Field(Distinct(sets)[i], Cut(Last(sets, Distinct(sets)[i]), VALUE_SIZE))
  {
    var keys := Distinct(sets);
    forall i | 0 <= i < |fs|
      ensures 0 < |keys[i]| < KEY_SIZE && ':' !in keys[i]
      ensures fs[i] == Field(keys[i], Cut(Last(sets, keys[i]), VALUE_SIZE))
    {
      assert keys[i] in keys;
    }
  }

  /** A key with a colon is read up to it, so its own lookup finds nothing. */
  lemma ColonKeyLost(fs: seq<Field>, payload: string)
    ensures Answer([Field("a:b", "c")] + fs, payload, "a:b") == None
    ensures Answer([Field("a:b", "c")] + fs, payload, "a") == Some("b: c")
  {
    hide ReadLine, FirstValue;
    var all := [Field("a:b", "c")] + fs;
    NeverNamed(all, "a:b");
    assert all[0] == Field("a:b", "c");
    IndexOfIs("a:b", ':', 1);
    assert Named(all)[0].key == "a";
    assert FindKey(Named(all), "a") == 0;
    FieldRead(all[0], Behind(all, 0, payload));
    assert "a:b"[2..] + ": " + "c" == "b: c" && "b: c" + "" == "b: c";
    ShortValue("b: c", "");
  }
}
