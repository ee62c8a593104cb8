/** MAC addresses: six octets, read from and printed as colon-separated hex groups. */
module Mac {
  import opened CText
  import opened Decimal

  const TEXT_SIZE := 18

  predicate IsHex(c: char) {
    '0' <= c <= '9' || 'a' <= c <= 'f' || 'A' <= c <= 'F'
  }

  function HexValue(c: char): (n: nat)
    requires IsHex(c)
    ensures n < 16
  {
    if c <= '9' then c as int - '0' as int
    else if c <= 'F' then c as int - 'A' as int + 10
    else c as int - 'a' as int + 10
  }

  function HexDigit(n: nat): char
    requires n < 16
  {
    if n < 10 then ('0' as int + n) as char else ('A' as int + n - 10) as char
  }

  /** An octet as sscanf leaves it, and where it stopped. */
  datatype HexScan = NoMatch | Match(octet: nat, next: nat)

  /**
    `%2x` at `p`, narrowed to an octet: blanks, then at most two characters of an optional sign, an optional `0x` and
    hex digits. A lone `0x` is no number.
   */
  function ScanHex(s: string, p: nat): (r: HexScan)
    requires p <= |s|
    ensures r.Match? ==> r.octet < 0x100 && p < r.next <= |s|
  {
    var q := SpanFrom(s, Spaces, p);
    if q + 1 < |s| && s[q] == '+' && IsHex(s[q + 1]) then Match(HexValue(s[q + 1]), q + 2)
    else if q + 1 < |s| && s[q] == '-' && IsHex(s[q + 1]) then Match((0 - HexValue(s[q + 1])) % 0x100, q + 2)
    else if q == |s| || !IsHex(s[q]) then NoMatch
    else if q + 1 < |s| && IsHex(s[q + 1]) then Match(16 * HexValue(s[q]) + HexValue(s[q + 1]), q + 2)
    else if s[q] == '0' && q + 1 < |s| && s[q + 1] in {'x', 'X'} then NoMatch
    else Match(HexValue(s[q]), q + 1)
  }

  /** `n` groups with colons between them. */
  function ScanGroups(s: string, p: nat, n: nat): (r: Option<seq<nat>>)
    requires p <= |s| && n > 0
    ensures r.Some? ==> |r.value| == n && Octets(r.value)
    decreases n
  {
    match ScanHex(s, p)
    case NoMatch => None
    case Match(octet, next) =>
      if n == 1 then Some([octet])
      else if next == |s| || s[next] != ':' then None
      else
        match ScanGroups(s, next + 1, n - 1)
        case None => None
        case Some(rest) => Some([octet] + rest)
  }

  /** `%02X`. */
  function Hex2(b: nat): string
    requires b < 0x100
  {
    [HexDigit(b / 16), HexDigit(b % 16)]
  }

  predicate Octets(bs: seq<nat>) {
    forall i | 0 <= i < |bs| :: bs[i] < 0x100
  }

  function Print(bs: seq<nat>): (s: string)
    requires bs != [] && Octets(bs)
    ensures |s| == 3 * |bs| - 1 && '\0' !in s
  {
    if |bs| == 1 then Hex2(bs[0]) else Hex2(bs[0]) + ":" + Print(bs[1..])
  }

  // ---------------------------------------------------------------- the structure

  /** fossil_net_mac_t. */
  class Record {
    const bytes: array<nat>
    const text: array<char>

    constructor ()
      ensures Storage() && fresh(bytes) && fresh(text)
    {
      bytes := new nat[6];
      text := new char[TEXT_SIZE];
    }

    predicate Storage() {
      bytes.Length == 6 && text.Length == TEXT_SIZE
    }

    /** The text is the print of the octets. */
    ghost predicate Consistent()
      reads bytes, text
    {
      Storage() && Octets(bytes[..]) && '\0' in text[..] && CStr(text[..]) == Print(bytes[..])
    }

    /** fossil_net_socket_mac_parse. */
    method Parse(s: Option<string>) returns (rc: int)
      requires Storage() && (s.Some? ==> '\0' !in s.value)
      modifies bytes, text
      ensures rc == if s.Some? && ScanGroups(s.value, 0, 6).Some? then 0 else -1
      ensures rc == 0 ==> Consistent() && bytes[..] == ScanGroups(s.value, 0, 6).value
      ensures rc != 0 ==> unchanged(bytes, text)
    {
      if s.None? {
        return -1;
      }
      var b := ScanGroups(s.value, 0, 6);
      if b.None? {
        return -1;
      }
      var i := 0;
      while i < 6
        invariant 0 <= i <= 6 && bytes[..i] == b.value[..i]
        invariant unchanged(text)
      {
        bytes[i] := b.value[i];
        i := i + 1;
      }
      assert bytes[..] == bytes[..6] == b.value[..6] == b.value;
      StoreText(text, Print(b.value));
      return 0;
    }

    /** fossil_net_socket_mac_to_string: the text cut to the buffer and padded with NULs, as strncpy does. */
    method ToString(buffer: array?<char>, size: nat) returns (rc: int)
      requires Storage() && buffer != text && '\0' in text[..]
      requires buffer != null ==> 0 < size <= buffer.Length
      modifies buffer
      ensures rc == if buffer == null then -1 else 0
      ensures buffer != null ==>
                var shown := Cut(CStr(text[..]), size);
                && CStr(buffer[..size]) == shown
                && (forall k | 0 <= k < size :: buffer[k] == if k < |shown| then shown[k] else '\0')
                && buffer[size..] == old(buffer[size..])
    {
      if buffer == null {
        return -1;
      }
      ghost var was := text[..];
      var s := CStr(text[..]);
      forall k | 0 <= k < size {
        buffer[k] := if k < |s| && k < size - 1 then s[k] else '\0';
      }
      ghost var shown := Cut(s, size);
      assert buffer[..size][..|shown|] == shown;
      CStrIs(buffer[..size], shown);
      assert text[..] == was;
      return 0;
    }
  }

  /** fossil_net_socket_mac_equal. */
  predicate Equal(mac1: Record?, mac2: Record?)
    reads if mac1 != null then {mac1.bytes} else {}, if mac2 != null then {mac2.bytes} else {}
  {
    mac1 != null && mac2 != null && mac1.bytes[..] == mac2.bytes[..]
  }

  // ---------------------------------------------------------------- which texts are read

  /** Every hex digit has its value, in either case. */
  lemma HexValues(i: nat)
    requires i < 16
    ensures var lower, upper := "0123456789abcdef", "0123456789ABCDEF";
            IsHex(lower[i]) && IsHex(upper[i]) && HexValue(lower[i]) == i && HexValue(upper[i]) == i
  {}

  /** One group of an address: blanks, and two hex digits, a sign and one, or one alone. */
  datatype Group = Group(blanks: string, core: string)

  predicate Shaped(g: Group) {
    && AllSpaces(g.blanks)
    && if |g.core| == 1 then IsHex(g.core[0])
       else |g.core| == 2 && (IsHex(g.core[0]) || g.core[0] == '+' || g.core[0] == '-') && IsHex(g.core[1])
  }

  /** The group cannot be read on into what follows: a single digit is not continued, and no `0x` begins. */
  predicate Ends(core: string, rest: string) {
    |core| == 1 && rest != "" ==> !IsHex(rest[0]) && !(core == "0" && rest[0] in {'x', 'X'})
  }

  /** Its octet; a negative number is narrowed. */
  function Octet(g: Group): (n: nat)
    requires Shaped(g)
    ensures n < 256
  {
    if |g.core| == 1 then HexValue(g.core[0])
    else if g.core[0] == '+' then HexValue(g.core[1])
    else if g.core[0] == '-' then (256 - HexValue(g.core[1])) % 256
    else 16 * HexValue(g.core[0]) + HexValue(g.core[1])
  }

  predicate AllShaped(gs: seq<Group>) {
    gs != [] && forall i | 0 <= i < |gs| :: Shaped(gs[i])
  }

  function OctetsIn(gs: seq<Group>): (bs: seq<nat>)
    requires AllShaped(gs)
  {
    seq(|gs|, i requires 0 <= i < |gs| => Octet(gs[i]))
  }

  /** The groups with single colons between them, and anything behind the last. */
  function GroupsText(gs: seq<Group>, tail: string): string
    requires gs != []
  {
    gs[0].blanks + (gs[0].core + if |gs| == 1 then tail else ":" + GroupsText(gs[1..], tail))
  }

  lemma ScanCore(s: string, p: nat, q: nat, g: Group, rest: string)
    requires p <= q <= |s| && SpanFrom(s, Spaces, p) == q && Shaped(g) && Ends(g.core, rest)
    requires q + |g.core| <= |s| && s[q..q + |g.core|] == g.core && s[q + |g.core|..] == rest
    ensures ScanHex(s, p) == Match(Octet(g), q + |g.core|)
  {
    hide SpanFrom, HexValue;
    assert forall k | q <= k < q + |g.core| :: s[k] == g.core[k - q];
    assert s[q] == g.core[0] && (|g.core| == 2 ==> s[q + 1] == g.core[1]);
    assert rest != "" ==> s[q + |g.core|] == rest[0];
    assert !IsSpace(g.core[0]);
  }

  lemma GroupTaken(s: string, p: nat, g: Group, rest: string)
    requires p <= |s| && s[p..] == g.blanks + (g.core + rest) && Shaped(g) && Ends(g.core, rest)
    ensures ScanHex(s, p) == Match(Octet(g), p + |g.blanks| + |g.core|)
    ensures p + |g.blanks| + |g.core| <= |s| && s[p + |g.blanks| + |g.core|..] == rest
  {
    hide SpanFrom, HexValue, ScanHex, Ends, Octet;
    var q := p + |g.blanks|;
    SpanOver(s, Spaces, p, g.blanks, g.core + rest);
    DropFront(s, p, g.blanks, g.core + rest);
    DropFront(s, q, g.core, rest);
    assert s[q..q + |g.core|] == s[q..][..|g.core|] == g.core;
    ScanCore(s, p, q, g, rest);
  }

  lemma NextGroup(s: string, p: nat, g: Group, t: string)
    requires p <= |s| && s[p..] == g.blanks + (g.core + (":" + t)) && Shaped(g)
    ensures var next := p + |g.blanks| + |g.core|;
            next < |s| && ScanHex(s, p) == Match(Octet(g), next) && s[next] == ':' && s[next + 1..] == t
  {
    hide ScanHex, Octet, Shaped, Ends;
    var next := p + |g.blanks| + |g.core|;
    ColonEnds(g.core, t);
    GroupTaken(s, p, g, ":" + t);
    DropFront(s, next, ":", t);
    assert s[next] == s[next..][0];
  }

  lemma DropFront(text: string, p: nat, a: string, b: string)
    requires p <= |text| && text[p..] == a + b
    ensures p + |a| <= |text| && text[p + |a|..] == b
  {
    assert |text[p..]| == |text| - p;
    assert text[p + |a|..] == text[p..][|a|..];
  }

  lemma GroupFound(s: string, p: nat) returns (g: Group, rest: string)
    requires p <= |s| && ScanHex(s, p).Match?
    ensures s[p..] == g.blanks + (g.core + rest) && Shaped(g) && Ends(g.core, rest)
    ensures ScanHex(s, p) == Match(Octet(g), p + |g.blanks| + |g.core|)
    ensures s[p + |g.blanks| + |g.core|..] == rest
  {
    hide SpanFrom, HexValue;
    var q, e := SpanFrom(s, Spaces, p), ScanHex(s, p).next;
    SpanFromLongest(s, Spaces, p);
    g, rest := Group(s[p..q], s[q..e]), s[e..];
    assert s[p..] == s[p..q] + (s[q..e] + s[e..]);
    assert rest != "" ==> rest[0] == s[e];
    assert |g.core| == e - q && forall k | 0 <= k < |g.core| :: g.core[k] == s[q + k];
    GroupTaken(s, p, g, rest);
  }

  lemma OctetsCons(gs: seq<Group>)
    requires AllShaped(gs) && |gs| > 1
    ensures AllShaped(gs[1..]) && OctetsIn(gs) == [Octet(gs[0])] + OctetsIn(gs[1..])
  {}

  lemma ScanStep(s: string, p: nat, octet: nat, next: nat, n: nat)
    requires p <= |s| && n > 1 && next < |s| && ScanHex(s, p) == Match(octet, next) && s[next] == ':'
    ensures ScanGroups(s, p, n) ==
              match ScanGroups(s, next + 1, n - 1)
              case None => None
              case Some(rest) => Some([octet] + rest)
  {}

  lemma ColonEnds(core: string, rest: string)
    ensures Ends(core, ":" + rest)
  {}

  lemma OneGroup(s: string, p: nat, g: Group, tail: string)
    requires p <= |s| && Shaped(g) && Ends(g.core, tail) && s[p..] == g.blanks + (g.core + tail)
    ensures ScanGroups(s, p, 1) == Some([Octet(g)])
  {
    hide ScanHex, Octet, Shaped, Ends;
    GroupTaken(s, p, g, tail);
  }

  /** Texts that start with such groups are read, and as their octets. */
  lemma {:induction false} GroupsTaken(s: string, p: nat, gs: seq<Group>, tail: string)
    requires p <= |s| && AllShaped(gs) && Ends(gs[|gs| - 1].core, tail) && s[p..] == GroupsText(gs, tail)
    ensures ScanGroups(s, p, |gs|) == Some(OctetsIn(gs))
    decreases |gs|
  {
    hide ScanHex, Octet, Shaped, Ends, ScanGroups;
    if |gs| == 1 {
      OneGroup(s, p, gs[0], tail);
      assert OctetsIn(gs) == [Octet(gs[0])];
    } else {
      var next := p + |gs[0].blanks| + |gs[0].core|;
      NextGroup(s, p, gs[0], GroupsText(gs[1..], tail));
      OctetsCons(gs);
      GroupsTaken(s, next + 1, gs[1..], tail);
      ScanStep(s, p, Octet(gs[0]), next, |gs|);
    }
  }

  lemma MoreFound(s: string, p: nat, n: nat)
    requires p <= |s| && n > 0 && ScanGroups(s, p, n).Some?
    ensures ScanHex(s, p).Match?
    ensures n > 1 ==> var next := ScanHex(s, p).next;
                      next < |s| && s[next] == ':' && ScanGroups(s, next + 1, n - 1).Some?
  {
    hide ScanHex;
  }

  /** Texts that are read start with such groups. */
  lemma {:induction false} GroupsFound(s: string, p: nat, n: nat) returns (gs: seq<Group>, tail: string)
    requires p <= |s| && n > 0 && ScanGroups(s, p, n).Some?
    ensures |gs| == n && AllShaped(gs) && Ends(gs[n - 1].core, tail) && s[p..] == GroupsText(gs, tail)
    decreases n
  {
    hide ScanHex, Octet, Shaped, Ends, ScanGroups;
    MoreFound(s, p, n);
    var g, rest := GroupFound(s, p);
    if n == 1 {
      gs, tail := [g], rest;
    } else {
      var next := p + |g.blanks| + |g.core|;
      var more, end := GroupsFound(s, next + 1, n - 1);
      gs, tail := [g] + more, end;
      assert rest == ":" + s[next + 1..];
      assert gs[1..] == more;
    }
  }

  /** The text starts with `n` groups, separated by single colons; anything may follow the last. */
  ghost predicate StartsWithGroups(s: string, n: nat) {
    exists gs, tail :: Grouped(s, n, gs, tail)
  }

  ghost predicate Grouped(s: string, n: nat, gs: seq<Group>, tail: string) {
    |gs| == n && AllShaped(gs) && Ends(gs[|gs| - 1].core, tail) && s == GroupsText(gs, tail)
  }

  /** An address is read exactly from the texts that start with six such groups. */
  lemma {:induction false} GroupsRead(s: string, n: nat)
    requires n > 0
    ensures ScanGroups(s, 0, n).Some? <==> StartsWithGroups(s, n)
  {
    hide AllShaped, GroupsText, Ends, ScanGroups;
    assert s[0..] == s;
    if StartsWithGroups(s, n) {
      var gs, tail :| Grouped(s, n, gs, tail);
      GroupsTaken(s, 0, gs, tail);
    }
    if ScanGroups(s, 0, n).Some? {
      var gs, tail := GroupsFound(s, 0, n);
      assert Grouped(s, n, gs, tail);
    }
  }

  // ---------------------------------------------------------------- reading and printing

  predicate HexGroup(g: string) {
    1 <= |g| <= 2 && forall i | 0 <= i < |g| :: IsHex(g[i])
  }

  function GroupValue(g: string): (n: nat)
    requires HexGroup(g)
    ensures n < 0x100
  {
    if |g| == 1 then HexValue(g[0]) else 16 * HexValue(g[0]) + HexValue(g[1])
  }

  predicate HexGroups(gs: seq<string>) {
    gs != [] && forall i | 0 <= i < |gs| :: HexGroup(gs[i])
  }

  function Join(gs: seq<string>): string
    requires gs != []
  {
    if |gs| == 1 then gs[0] else gs[0] + ":" + Join(gs[1..])
  }

  function Values(gs: seq<string>): (bs: seq<nat>)
    requires forall i | 0 <= i < |gs| :: HexGroup(gs[i])
    ensures |bs| == |gs| && Octets(bs)
  {
    seq(|gs|, i requires 0 <= i < |gs| => GroupValue(gs[i]))
  }

  lemma GroupScanned(s: string, p: nat, g: string, rest: string)
    requires p <= |s| && s[p..] == g + rest && HexGroup(g) && (rest == "" || rest[0] == ':')
    ensures ScanHex(s, p) == Match(GroupValue(g), p + |g|)
  {
    assert forall j | 0 <= j < |g| :: s[p + j] == s[p..][j] == g[j];
    assert rest != "" ==> s[p + |g|] == s[p..][|g|] == ':';
    assert |s| == p + |g| + |rest|;
    SpanFromIs(s, Spaces, p, p);
  }

  /** The `n` groups at `p` are read as these octets. */
  predicate Reads(s: string, p: nat, n: nat, bs: seq<nat>)
    requires p <= |s| && n > 0
  {
    ScanGroups(s, p, n).Some? && ScanGroups(s, p, n).value == bs
  }

  lemma FirstGroup(s: string, p: nat, g: string, rest: string)
    requires p <= |s| && s[p..] == g + ":" + rest && HexGroup(g)
    ensures ScanHex(s, p) == Match(GroupValue(g), p + |g|)
    ensures p + |g| + 1 <= |s| && s[p + |g|] == ':' && s[p + |g| + 1..] == rest
  {
    assert s[p..] == g + (":" + rest);
    GroupScanned(s, p, g, ":" + rest);
    assert |s[p..]| == |s| - p;
    assert s[p + |g|] == s[p..][|g|];
    assert s[p + |g| + 1..] == s[p..][|g| + 1..];
  }

  lemma LastGroup(s: string, p: nat, gs: seq<string>)
    requires p <= |s| && |gs| == 1 && HexGroups(gs) && s[p..] == Join(gs)
    ensures Reads(s, p, |gs|, Values(gs))
  {
    assert s[p..] == gs[0] + "";
    GroupScanned(s, p, gs[0], "");
    assert Values(gs) == [GroupValue(gs[0])];
  }

  lemma ValuesCons(gs: seq<string>)
    requires HexGroups(gs)
    ensures Values(gs) == [GroupValue(gs[0])] + Values(gs[1..])
  {}

  lemma ScanMore(s: string, p: nat, octet: nat, next: nat, rest: seq<nat>, n: nat)
    requires p <= |s| && next < |s| && ScanHex(s, p) == Match(octet, next) && s[next] == ':' && n > 1
    requires Reads(s, next + 1, n - 1, rest)
    ensures Reads(s, p, n, [octet] + rest)
  {}

  lemma MoreGroups(s: string, p: nat, gs: seq<string>)
    requires p <= |s| && |gs| > 1 && HexGroups(gs) && s[p..] == Join(gs)
    requires p + |gs[0]| + 1 <= |s| && Reads(s, p + |gs[0]| + 1, |gs[1..]|, Values(gs[1..]))
    ensures Reads(s, p, |gs|, Values(gs))
  {
    ValuesCons(gs);
    FirstGroup(s, p, gs[0], Join(gs[1..]));
    ScanMore(s, p, GroupValue(gs[0]), p + |gs[0]|, Values(gs[1..]), |gs|);
  }

  lemma TailStarts(s: string, p: nat, gs: seq<string>) returns (q: nat, tail: seq<string>)
    requires p <= |s| && |gs| > 1 && HexGroups(gs) && s[p..] == Join(gs)
    ensures q == p + |gs[0]| + 1 <= |s| && tail == gs[1..] && HexGroups(tail) && s[q..] == Join(tail)
  {
    q, tail := p + |gs[0]| + 1, gs[1..];
    FirstGroup(s, p, gs[0], Join(tail));
  }

  /** Colon-separated groups of one or two hex digits are read as their values. */
  lemma {:induction false} GroupsScanned(s: string, p: nat, gs: seq<string>)
    requires p <= |s| && HexGroups(gs) && s[p..] == Join(gs)
    ensures Reads(s, p, |gs|, Values(gs))
    decreases |gs|
  {
    if |gs| == 1 {
      LastGroup(s, p, gs);
    } else {
      var q, tail := TailStarts(s, p, gs);
      GroupsScanned(s, q, tail);
      MoreGroups(s, p, gs);
    }
  }

  lemma HexRoundTrip(b: nat)
    requires b < 0x100
    ensures HexGroup(Hex2(b)) && GroupValue(Hex2(b)) == b
  {
  }

  function Printed(bs: seq<nat>): (gs: seq<string>)
    requires Octets(bs)
  {
    seq(|bs|, i requires 0 <= i < |bs| => Hex2(bs[i]))
  }

  lemma {:induction false} PrintJoins(bs: seq<nat>)
    requires bs != [] && Octets(bs)
    ensures Print(bs) == Join(Printed(bs))
  {
    if |bs| > 1 {
      PrintJoins(bs[1..]);
      assert Printed(bs)[1..] == Printed(bs[1..]);
    }
  }

  /** Reading a printed address gives its octets back. */
  lemma {:induction false} PrintRoundTrip(bs: seq<nat>)
    requires bs != [] && Octets(bs)
    ensures Reads(Print(bs), 0, |bs|, bs)
  {
    var gs := Printed(bs);
    forall i | 0 <= i < |bs| ensures HexGroup(gs[i]) && GroupValue(gs[i]) == bs[i] {
      HexRoundTrip(bs[i]);
    }
    PrintJoins(bs);
    assert Print(bs)[0..] == Join(gs);
    GroupsScanned(Print(bs), 0, gs);
    assert Values(gs) == bs;
  }

  /** Without an address there is no equality. */
  lemma NothingEqualsNull(mac: Record?)
    ensures !Equal(null, mac) && !Equal(mac, null)
  {}

  /** Two parsed addresses are equal exactly when their texts are. */
  lemma EqualMeansSameText(a: Record, b: Record)
    requires a.Consistent() && b.Consistent()
    ensures Equal(a, b) <==> CStr(a.text[..]) == CStr(b.text[..])
  {
    PrintRoundTrip(a.bytes[..]);
    PrintRoundTrip(b.bytes[..]);
  }

  predicate UpperHex(c: char) {
    '0' <= c <= '9' || 'A' <= c <= 'F'
  }

  /** The canonical form: pairs of upper-case hex digits with single colons between them. */
  predicate Canonical(t: string, n: nat) {
    && |t| == 3 * n - 1
    && forall i | 0 <= i < |t| :: if i % 3 == 2 then t[i] == ':' else UpperHex(t[i])
  }

  lemma {:induction false} PrintIsCanonical(bs: seq<nat>)
    requires bs != [] && Octets(bs)
    ensures Canonical(Print(bs), |bs|)
  {
    if |bs| > 1 {
      var t, rest := Print(bs), Print(bs[1..]);
      PrintIsCanonical(bs[1..]);
      forall i | 0 <= i < |t| ensures if i % 3 == 2 then t[i] == ':' else UpperHex(t[i]) {
        if i >= 3 {
          assert t[i] == rest[i - 3] && i % 3 == (i - 3) % 3;
        }
      }
    }
  }

  /** Exactly the canonical texts are fixed by reading and printing again. */
  lemma {:induction false} FixedPoint(t: string, n: nat)
    requires n > 0
    ensures Canonical(t, n) <==> ScanGroups(t, 0, n).Some? && Print(ScanGroups(t, 0, n).value) == t
  {
    if Canonical(t, n) {
      var bs := OctetsOf(t, n);
      PrintRoundTrip(bs);
    } else if ScanGroups(t, 0, n).Some? && Print(ScanGroups(t, 0, n).value) == t {
      PrintIsCanonical(ScanGroups(t, 0, n).value);
    }
  }

  /** Every canonical text is the print of some octets. */
  lemma {:induction false} OctetsOf(t: string, n: nat) returns (bs: seq<nat>)
    requires n > 0 && Canonical(t, n)
    ensures |bs| == n && Octets(bs) && Print(bs) == t
  {
    var b := 16 * HexValue(t[0]) + HexValue(t[1]);
    assert UpperHex(t[0]) && UpperHex(t[1]);
    if n == 1 {
      bs := [b];
      assert t == [t[0], t[1]];
    } else {
      var rest := t[3..];
      forall i | 0 <= i < |rest| ensures if i % 3 == 2 then rest[i] == ':' else UpperHex(rest[i]) {
        assert rest[i] == t[i + 3] && (i + 3) % 3 == i % 3;
      }
      var tail := OctetsOf(rest, n - 1);
      bs := [b] + tail;
      assert bs[1..] == tail;
      assert t[2] == ':' && t == [t[0], t[1]] + ":" + rest;
    }
  }
}
