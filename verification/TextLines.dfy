/** Text as lines ended by CRLF, and what a reader of header lines finds in it (RFC 9112, section 2). */
module TextLines {
  import opened CText
  import opened Decimal

  /** The lines of a text; the last one is what follows the last line end. */
  function Split(s: string): (lines: seq<string>)
    ensures |lines| > 0
    decreases |s|
  {
    match Find(s, CRLF)
    case Absent => [s]
    case Place(i) => [s[..i]] + Split(s[i + 2..])
  }

  function Join(lines: seq<string>): string {
    if lines == [] then "" else if |lines| == 1 then lines[0] else lines[0] + CRLF + Join(lines[1..])
  }

  predicate OneLine(s: string) {
    Find(s, CRLF).Absent?
  }

  predicate AllOneLine(lines: seq<string>) {
    forall i | 0 <= i < |lines| :: OneLine(lines[i])
  }

  lemma SplitOne(s: string)
    ensures |Split(s)| == 1 <==> OneLine(s)
    ensures OneLine(s) ==> Split(s) == [s]
  {}

  lemma FindInFront(a: string, b: string, i: nat)
    requires Find(a, CRLF) == Place(i)
    ensures Find(a + b, CRLF) == Place(i)
  {
    FindFirst(a, CRLF);
    AtCrlf(a, i);
    AtCrlf(a + b, i);
    forall j: nat | j < i ensures !At(a + b, CRLF, j) {
      AtCrlf(a + b, j);
      AtCrlf(a, j);
    }
    FindIs(a + b, CRLF, i);
  }

  lemma FindAtEnd(a: string, b: string)
    requires OneLine(a)
    ensures Find(a + CRLF + b, CRLF) == Place(|a|)
    ensures (a + CRLF + b)[..|a|] == a && (a + CRLF + b)[|a| + 2..] == b
  {
    var text := a + CRLF + b;
    FindFirst(a, CRLF);
    AtCrlf(text, |a|);
    forall j: nat | j < |a| ensures !At(text, CRLF, j) {
      AtCrlf(text, j);
      AtCrlf(a, j);
    }
    FindIs(text, CRLF, |a|);
  }

  lemma SplitStep(s: string, i: nat)
    requires Find(s, CRLF) == Place(i)
    ensures i + 2 <= |s| && Split(s) == [s[..i]] + Split(s[i + 2..])
  {
    hide Find, At;
  }

  lemma SplitFirst(s: string, i: nat)
    requires Find(s, CRLF) == Place(i)
    ensures i + 2 <= |s| && s == s[..i] + CRLF + s[i + 2..]
    ensures Split(s)[0] == s[..i] && Split(s)[1..] == Split(s[i + 2..]) && |Split(s)| > 1
  {
    hide Find, Split;
    AtCrlf(s, i);
    SplitStep(s, i);
  }

  /** Line ends never overlap, so a text put together at a line end has the lines of its parts. */
  lemma {:induction false} SplitAppend(a: string, b: string)
    ensures Split(a + CRLF + b) == Split(a) + Split(b)
    decreases |a|
  {
    hide Find, Split, At;
    if OneLine(a) {
      FindAtEnd(a, b);
      SplitStep(a + CRLF + b, |a|);
      SplitOne(a);
    } else {
      var i := Find(a, CRLF).index;
      SplitAppend(a[i + 2..], b);
      SplitCarries(a, b, i);
      SplitStep(a, i);
    }
  }

  lemma SplitCarries(a: string, b: string, i: nat)
    requires Find(a, CRLF) == Place(i)
    ensures i + 2 <= |a| && Split(a + CRLF + b) == [a[..i]] + Split(a[i + 2..] + CRLF + b)
  {
    hide Find, Split, At;
    var text := a + CRLF + b;
    assert text == a + (CRLF + b);
    FindInFront(a, CRLF + b, i);
    SplitStep(text, i);
    assert text[..i] == a[..i] && text[i + 2..] == a[i + 2..] + CRLF + b;
  }

  lemma OneLineFront(s: string, i: nat)
    requires Find(s, CRLF) == Place(i)
    ensures OneLine(s[..i])
  {
    FindFirst(s, CRLF);
    forall j: nat ensures !At(s[..i], CRLF, j) {
      AtCrlf(s[..i], j);
      AtCrlf(s, j);
    }
    FindNone(s[..i], CRLF);
  }

  /** The lines are the text, and each is one line. */
  lemma {:induction false} SplitJoin(s: string)
    ensures Join(Split(s)) == s && AllOneLine(Split(s))
    decreases |s|
  {
    hide Find, At, Split;
    if OneLine(s) {
      SplitOne(s);
    } else {
      var i := Find(s, CRLF).index;
      SplitFirst(s, i);
      OneLineFront(s, i);
      SplitJoin(s[i + 2..]);
    }
  }

  /** Splitting undoes joining on lines. */
  lemma {:induction false} JoinSplit(lines: seq<string>)
    requires lines != [] && AllOneLine(lines)
    ensures Split(Join(lines)) == lines
  {
    hide Split, OneLine;
    SplitOne(lines[0]);
    if |lines| > 1 {
      JoinSplit(lines[1..]);
      SplitAppend(lines[0], Join(lines[1..]));
    }
  }

  /** A piece without any part of a line end between two texts keeps line ends apart. */
  lemma OneLineGlued(a: string, glue: string, b: string)
    requires glue != "" && '\r' !in glue && '\n' !in glue
    ensures OneLine(a + glue + b) <==> OneLine(a) && OneLine(b)
  {
    var s := a + glue + b;
    FindFirst(s, CRLF);
    FindFirst(a, CRLF);
    FindFirst(b, CRLF);
    if OneLine(s) {
      forall j: nat ensures !At(a, CRLF, j) && !At(b, CRLF, j) {
        AtCrlf(a, j);
        AtCrlf(b, j);
        AtCrlf(s, j);
        AtCrlf(s, |a| + |glue| + j);
      }
    } else {
      GlueHolds(a, glue, b, Find(s, CRLF).index);
    }
  }

  lemma GlueHolds(a: string, glue: string, b: string, j: nat)
    requires glue != "" && '\r' !in glue && '\n' !in glue && At(a + glue + b, CRLF, j)
    ensures At(a, CRLF, j) || (|a| + |glue| <= j && At(b, CRLF, j - |a| - |glue|))
  {
    hide At;
    var s, e := a + glue + b, |a| + |glue|;
    AtCrlf(s, j);
    AtCrlf(a, j);
    forall k | |a| <= k < e ensures s[k] != '\r' && s[k] != '\n' {
      assert s[k] == glue[k - |a|];
    }
    if j >= e {
      AtCrlf(b, j - e);
    }
  }

  // ---------------------------------------------------------------- readers of header lines

  /** The lines before the first empty one. */
  function BeforeEmpty(lines: seq<string>): seq<string> {
    if lines == [] || lines[0] == "" then [] else [lines[0]] + BeforeEmpty(lines[1..])
  }

  lemma {:induction false} BeforeEmptyAppend(a: seq<string>, b: seq<string>)
    ensures BeforeEmpty(a + b) == BeforeEmpty(a) + if "" in a then [] else BeforeEmpty(b)
  {
    if a == [] {
      assert a + b == b;
    } else {
      assert (a + b)[1..] == a[1..] + b && a == [a[0]] + a[1..];
      BeforeEmptyAppend(a[1..], b);
    }
  }

  lemma {:induction false} BeforeEmptyAll(lines: seq<string>)
    requires "" !in lines
    ensures BeforeEmpty(lines) == lines
  {
    if lines != [] {
      assert lines == [lines[0]] + lines[1..];
      BeforeEmptyAll(lines[1..]);
    }
  }

  /** The header lines of a message: behind its first line, before the first empty one. */
  function HeaderLines(text: string): seq<string> {
    BeforeEmpty(Split(text)[1..])
  }

  /** The name of a header line ends at its first colon. */
  function Name(line: string): string {
    line[..IndexOf(line, ':')]
  }

  function CountNamed(lines: seq<string>, name: string): nat {
    if lines == [] then 0
    else CountNamed(lines[..|lines| - 1], name) + if Name(lines[|lines| - 1]) == name then 1 else 0
  }

  function FirstNamed(lines: seq<string>, name: string): Option<string> {
    if lines == [] then None else if Name(lines[0]) == name then Some(lines[0]) else FirstNamed(lines[1..], name)
  }

  lemma {:induction false} FirstNamedAppend(a: seq<string>, b: seq<string>, name: string)
    ensures FirstNamed(a + b, name) == if FirstNamed(a, name).Some? then FirstNamed(a, name) else FirstNamed(b, name)
  {
    if a == [] {
      assert a + b == b;
    } else {
      assert (a + b)[1..] == a[1..] + b;
      FirstNamedAppend(a[1..], b, name);
    }
  }

  /** The number behind the colon of a header line. */
  function Number(line: string): Option<int> {
    if IndexOf(line, ':') < |line| then ScanInt(line, IndexOf(line, ':') + 1) else None
  }

  /** The body length for a reader that goes by the first Content-Length line of a text. */
  function LengthRead(text: string): Option<int> {
    match FirstNamed(HeaderLines(text), "Content-Length")
    case None => None
    case Some(line) => Number(line)
  }
}
