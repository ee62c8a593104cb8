/** Decimal text: what `%u` and `%d` print, and what `%d` and atoi read. */
module Decimal {
  import opened CText

  datatype CharClass = Spaces | NonSpaces | Digits | Except(stops: set<char>) {
    predicate Has(c: char) {
      match this
      case Spaces => IsSpace(c)
      case NonSpaces => !IsSpace(c)
      case Digits => IsDigit(c)
      case Except(stops) => c !in stops
    }
  }

  /** isspace in the C locale. */
  predicate IsSpace(c: char) {
    c == ' ' || 0x09 <= c as int <= 0x0D
  }

  predicate IsDigit(c: char) {
    '0' <= c <= '9'
  }

  predicate AllDigits(s: string) {
    forall i | 0 <= i < |s| :: IsDigit(s[i])
  }

  predicate AllSpaces(s: string) {
    forall i | 0 <= i < |s| :: IsSpace(s[i])
  }

  /** Where the run of characters of one class that starts at `p` ends. */
  function SpanFrom(s: string, cls: CharClass, p: nat): (n: nat)
    requires p <= |s|
    ensures p <= n <= |s|
    decreases |s| - p
  {
    if p == |s| || !cls.Has(s[p]) then p else SpanFrom(s, cls, p + 1)
  }

  lemma {:induction false} SpanFromLongest(s: string, cls: CharClass, p: nat)
    requires p <= |s|
    ensures var n := SpanFrom(s, cls, p); (n < |s| ==> !cls.Has(s[n])) && forall j | p <= j < n :: cls.Has(s[j])
    decreases |s| - p
  {
    if p < |s| && cls.Has(s[p]) {
      SpanFromLongest(s, cls, p + 1);
    }
  }

  lemma SpanFromIs(s: string, cls: CharClass, p: nat, n: nat)
    requires p <= n <= |s| && (n < |s| ==> !cls.Has(s[n]))
    requires forall j | p <= j < n :: cls.Has(s[j])
    ensures SpanFrom(s, cls, p) == n
  {
    SpanFromLongest(s, cls, p);
  }

  function Value(s: string): nat
    requires AllDigits(s)
  {
    if s == "" then 0 else 10 * Value(s[..|s| - 1]) + (s[|s| - 1] as int - '0' as int)
  }

  /** `%u`: the canonical digits of `n`. */
  function Dec(n: nat): string {
    var d := ('0' as int + n % 10) as char;
    if n < 10 then [d] else Dec(n / 10) + [d]
  }

  /** Printed digits are digits, without a leading zero, and read back as the number. */
  lemma {:induction false} DecReads(n: nat)
    ensures Dec(n) != "" && AllDigits(Dec(n)) && Value(Dec(n)) == n
    ensures Dec(n)[0] == '0' ==> n == 0 && Dec(n) == "0"
  {
    var s := Dec(n);
    if n < 10 {
      assert s[..0] == "" && Value(s[..0]) == 0;
    } else {
      DecReads(n / 10);
      assert s[..|s| - 1] == Dec(n / 10);
    }
  }

  /** The number of digits `%u` needs. */
  lemma {:induction false} DecLength(n: nat, k: nat, bound: nat)
    requires k > 0 && n < bound && bound == Pow10(k)
    ensures |Dec(n)| <= k
  {
    if n >= 10 {
      DecLength(n / 10, k - 1, Pow10(k - 1));
    }
  }

  function Pow10(k: nat): nat {
    if k == 0 then 1 else 10 * Pow10(k - 1)
  }

  /** `%d` printing. */
  function DecInt(n: int): string {
    if n < 0 then ['-'] + Dec(-n) else Dec(n)
  }

  /** A run of at least one digit at `p`. */
  function ScanNat(s: string, p: nat): Option<nat>
    requires p <= |s|
  {
    var e := SpanFrom(s, Digits, p);
    SpanFromLongest(s, Digits, p);
    if e == p then None else Some(Value(s[p..e]))
  }

  /** `%d` reading at `p`: blanks, an optional sign and at least one digit. */
  function ScanInt(s: string, p: nat): Option<int>
    requires p <= |s|
  {
    var q := SpanFrom(s, Spaces, p);
    if q < |s| && s[q] == '-' then
      match ScanNat(s, q + 1)
      case None => None
      case Some(n) => Some(0 - (n as int))
    else
      ScanNat(s, if q < |s| && s[q] == '+' then q + 1 else q)
  }

  /** atoi at `p`, on numbers that fit an int. */
  function Atoi(s: string, p: nat): int
    requires p <= |s|
  {
    match ScanInt(s, p)
    case None => 0
    case Some(n) => n
  }

  /** The white space of the C locale, one by one. */
  lemma SpacesAre(c: char)
    ensures IsSpace(c) <==> c == ' ' || c == '\t' || c == '\n' || c == '\r' || c as int == 11 || c as int == 12
  {}

  /** The number of a sign and digits; none at all are 0. */
  function Signed(sign: string, digits: string): int
    requires AllDigits(digits)
  {
    if sign == "-" then 0 - Value(digits) else Value(digits)
  }

  /** How any text is read as a number: blanks, at most one sign, all digits that follow, and the rest. */
  predicate NumberText(blanks: string, sign: string, digits: string, rest: string) {
    && AllSpaces(blanks) && sign in {"", "+", "-"} && AllDigits(digits) && (rest == "" || !IsDigit(rest[0]))
    && (sign == "" && digits == "" && rest != "" ==> !IsSpace(rest[0]) && rest[0] != '+' && rest[0] != '-')
  }

  /** A number's digits count by their place. */
  lemma {:induction false} ValueSplit(a: string, b: string)
    requires AllDigits(a) && AllDigits(b)
    ensures AllDigits(a + b) && Value(a + b) == Value(a) * Pow10(|b|) + Value(b)
    decreases |b|
  {
    if b == "" {
      assert a + b == a;
    } else {
      var init := b[..|b| - 1];
      ValueSplit(a, init);
      assert (a + b)[..|a + b| - 1] == a + init;
      PlaceStep(Value(a), Pow10(|b| - 1), Value(init), b[|b| - 1] as int - '0' as int);
    }
  }

  lemma PlaceStep(v: nat, p: nat, i: nat, d: int)
    ensures 10 * (v * p + i) + d == v * (10 * p) + (10 * i + d)
  {}

  lemma SpanOver(s: string, cls: CharClass, p: nat, run: string, tail: string)
    requires p <= |s| && s[p..] == run + tail
    requires (forall i | 0 <= i < |run| :: cls.Has(run[i])) && (tail == "" || !cls.Has(tail[0]))
    ensures SpanFrom(s, cls, p) == p + |run|
  {
    var e := p + |run|;
    assert forall j | p <= j < e :: s[j] == s[p..][j - p] == run[j - p];
    assert e < |s| ==> s[e] == s[p..][|run|] == tail[0];
    SpanFromIs(s, cls, p, e);
  }

  /** atoi gives the number of the text, whatever the text; one without digits is 0. */
  lemma AtoiReads(s: string, p: nat, blanks: string, sign: string, digits: string, rest: string)
    requires p <= |s| && s[p..] == blanks + (sign + (digits + rest)) && NumberText(blanks, sign, digits, rest)
    ensures Atoi(s, p) == Signed(sign, digits)
  {
    hide SpanFrom, Value, ScanNat;
    var tail := sign + (digits + rest);
    var q := p + |blanks|;
    NumberStarts(sign, digits, rest);
    SpanOver(s, Spaces, p, blanks, tail);
    assert s[q..] == s[p..][|blanks|..] == tail;
    ScanAt(s, p, q, sign, digits, rest);
    assert digits == "" ==> Value(digits) == 0 by {
      NoDigits();
    }
  }

  lemma NoDigits()
    ensures Value("") == 0
  {}

  lemma ScanAt(s: string, p: nat, q: nat, sign: string, digits: string, rest: string)
    requires p <= q <= |s| && SpanFrom(s, Spaces, p) == q && s[q..] == sign + (digits + rest)
    requires NumberText("", sign, digits, rest)
    ensures ScanInt(s, p) == if digits == "" then None else Some(Signed(sign, digits))
  {
    hide SpanFrom, Value, ScanNat;
    NumberStarts(sign, digits, rest);
    assert q < |s| ==> s[q] == s[q..][0];
    if sign == "" {
      assert s[q..] == digits + rest;
      DigitsRead(s, q, digits, rest);
    } else {
      assert sign == [s[q]] && sign[0] == s[q];
      assert s[q + 1..] == s[q..][1..] == digits + rest;
      DigitsRead(s, q + 1, digits, rest);
    }
  }

  /** What follows the blanks starts with the sign, a digit or something else than white space. */
  lemma NumberStarts(sign: string, digits: string, rest: string)
    requires NumberText("", sign, digits, rest)
    ensures var t := sign + (digits + rest);
            && (t == "" || !IsSpace(t[0]))
            && (sign != "" ==> t != "" && [t[0]] == sign)
            && (sign == "" && t != "" ==> t[0] != '+' && t[0] != '-')
  {}

  lemma DigitsRead(s: string, q: nat, digits: string, rest: string)
    requires q <= |s| && s[q..] == digits + rest && AllDigits(digits) && (rest == "" || !IsDigit(rest[0]))
    ensures ScanNat(s, q) == if digits == "" then None else Some(Value(digits))
  {
    hide SpanFrom, Value;
    SpanOver(s, Digits, q, digits, rest);
    assert s[q..q + |digits|] == s[q..][..|digits|] == digits;
  }

  /** Every text is of that form. */
  lemma NumberParts(t: string) returns (blanks: string, sign: string, digits: string, rest: string)
    ensures t == blanks + (sign + (digits + rest)) && NumberText(blanks, sign, digits, rest)
  {
    hide SpanFrom;
    var q := SpanFrom(t, Spaces, 0);
    SpanFromLongest(t, Spaces, 0);
    blanks := t[..q];
    assert AllSpaces(blanks) && t == t[..q] + t[q..];
    var tail := t[q..];
    sign, digits, rest := SignParts(tail);
  }

  lemma SignParts(t: string) returns (sign: string, digits: string, rest: string)
    requires t == "" || !IsSpace(t[0])
    ensures t == sign + (digits + rest) && NumberText("", sign, digits, rest)
  {
    hide SpanFrom;
    if t != "" && (t[0] == '+' || t[0] == '-') {
      sign := [t[0]];
      digits, rest := DigitParts(t[1..]);
      assert t == [t[0]] + t[1..];
    } else {
      sign := "";
      digits, rest := DigitParts(t);
      assert t == "" + t;
    }
  }

  lemma DigitParts(t: string) returns (digits: string, rest: string)
    ensures t == digits + rest && AllDigits(digits) && (rest == "" || !IsDigit(rest[0]))
  {
    hide SpanFrom;
    var e := SpanFrom(t, Digits, 0);
    SpanFromLongest(t, Digits, 0);
    digits, rest := t[..e], t[e..];
  }

  predicate FitsInt(n: int) {
    -0x8000_0000 <= n < 0x8000_0000
  }

  /** Reading undoes printing, after any blanks and before any character that is not a digit. */
  lemma ScanPrinted(s: string, front: string, blanks: string, n: int, rest: string)
    requires s == front + blanks + DecInt(n) + rest
    requires AllSpaces(blanks) && (rest == "" || !IsDigit(rest[0]))
    ensures ScanInt(s, |front|) == Some(n)
  {
    var q := |front| + |blanks|;
    DecReads(if n < 0 then -n else n);
    assert s == front + blanks + (DecInt(n) + rest);
    SpanBlanks(s, front, blanks, DecInt(n) + rest);
    assert s[q..] == DecInt(n) + rest && s[q] == DecInt(n)[0];
    if n < 0 {
      ScanNegative(s, |front|, q, Dec(-n), rest);
    } else {
      ScanPositive(s, |front|, q, Dec(n), rest);
    }
  }

  lemma ScanPositive(s: string, p: nat, q: nat, ds: string, rest: string)
    requires p <= |s| && SpanFrom(s, Spaces, p) == q < |s| && s[q..] == ds + rest
    requires ds != "" && AllDigits(ds) && (rest == "" || !IsDigit(rest[0]))
    ensures ScanInt(s, p) == Some(Value(ds))
  {
    assert s[q] == s[q..][0] == ds[0];
    ScanDigits(s, q, ds, rest);
  }

  lemma ScanNegative(s: string, p: nat, q: nat, ds: string, rest: string)
    requires p <= |s| && SpanFrom(s, Spaces, p) == q < |s| && s[q..] == ['-'] + ds + rest
    requires ds != "" && AllDigits(ds) && (rest == "" || !IsDigit(rest[0]))
    ensures ScanInt(s, p) == Some(0 - Value(ds) as int)
  {
    assert s[q] == s[q..][0] && s[q + 1..] == s[q..][1..] == ds + rest;
    ScanDigits(s, q + 1, ds, rest);
  }

  lemma SpanBlanks(s: string, front: string, blanks: string, tail: string)
    requires s == front + blanks + tail && AllSpaces(blanks) && (tail == "" || !IsSpace(tail[0]))
    ensures SpanFrom(s, Spaces, |front|) == |front| + |blanks|
  {
    assert forall j | 0 <= j < |blanks| :: s[|front| + j] == blanks[j];
    SpanFromIs(s, Spaces, |front|, |front| + |blanks|);
  }

  lemma ScanDigits(s: string, d: nat, ds: string, rest: string)
    requires d <= |s| && s[d..] == ds + rest
    requires ds != "" && AllDigits(ds) && (rest == "" || !IsDigit(rest[0]))
    ensures ScanNat(s, d) == Some(Value(ds))
  {
    var e := d + |ds|;
    assert forall j | 0 <= j < |ds| :: s[d + j] == s[d..][j] == ds[j];
    assert e < |s| ==> s[e] == s[d..][|ds|] == rest[0];
    SpanFromIs(s, Digits, d, e);
    assert s[d..e] == s[d..][..|ds|] == ds;
  }

  lemma DecInjective(m: nat, n: nat)
    ensures Dec(m) == Dec(n) ==> m == n
  {
    DecReads(m);
    DecReads(n);
  }
}
