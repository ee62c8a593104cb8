/** Socket addresses and their text form. */
module Address {
  import opened CText
  import opened Decimal
  import opened Url
  import opened UrlLaws

  const IP_SIZE := 64
  const FAMILY_SIZE := 32

  datatype AddressValue = AddressValue(ip: string, port: nat, addr: string, family: string)

  /** What the system's `inet_pton` accepts as IPv4: digits and dots, at most fifteen characters. */
  predicate V4Text(s: string) {
    0 < |s| <= 15 && forall i | 0 <= i < |s| :: IsDigit(s[i]) || s[i] == '.'
  }

  /** What it accepts as IPv6 (section 2.2 of RFC 4291): hex digits, colons and dots, at most 45 characters. */
  predicate V6Text(s: string) {
    0 < |s| <= 45 && forall i | 0 <= i < |s| ::
      IsDigit(s[i]) || 'a' <= s[i] <= 'f' || 'A' <= s[i] <= 'F' || s[i] == ':' || s[i] == '.'
  }

  /** The two `inet_pton` calls, known only through the text they accept. */
  ghost predicate Resolver(v4: string -> bool, v6: string -> bool) {
    forall s: string :: (v4(s) ==> V4Text(s)) && (v6(s) ==> V6Text(s))
  }

  function FamilyOf(ip: string, v4: string -> bool, v6: string -> bool): string {
    if v4(ip) then "ipv4" else if v6(ip) then "ipv6" else ""
  }

  /** What fossil_net_socket_address_parse leaves in the structure. */
  function Parsed(ip: string, port: nat, v4: string -> bool, v6: string -> bool): AddressValue {
    AddressValue(Cut(ip, IP_SIZE), port, "", FamilyOf(ip, v4, v6))
  }

  /** What fossil_net_socket_address_to_string prints, unless the family is unknown. */
  function TextOf(a: AddressValue): Option<string> {
    var ip := if a.addr != "" then a.addr else a.ip;
    if a.family == "ipv4" then Some(ip + ":" + Dec(a.port))
    else if a.family == "ipv6" then Some("[" + ip + "]:" + Dec(a.port))
    else None
  }

  /** fossil_net_address_t. */
  class Record {
    const ip: array<char>
    const addr: array<char>
    const family: array<char>
    var port: nat

    constructor ()
      ensures Storage() && fresh(ip) && fresh(addr) && fresh(family)
    {
      ip, addr, family := new char[IP_SIZE], new char[IP_SIZE], new char[FAMILY_SIZE];
    }

    predicate Storage() {
      && ip.Length == IP_SIZE && addr.Length == IP_SIZE && family.Length == FAMILY_SIZE
      && ip != addr && ip != family && addr != family
    }

    function View(): AddressValue
      reads this, ip, addr, family
    {
      AddressValue(CStr(ip[..]), port, CStr(addr[..]), CStr(family[..]))
    }

    /** fossil_net_socket_address_parse. */
    method Parse(text: Option<string>, number: nat, v4: string -> bool, v6: string -> bool) returns (rc: int)
      requires Storage() && number < 0x1_0000 && (text.Some? ==> '\0' !in text.value)
      modifies this, ip, addr, family
      ensures text.None? ==> rc == -1 && unchanged(this, ip, addr, family)
      ensures text.Some? ==> View() == Parsed(text.value, number, v4, v6)
      ensures text.Some? ==> rc == if v4(text.value) || v6(text.value) then 0 else -1
    {
      if text.None? {
        return -1;
      }
      StoreText(addr, "");
      StoreText(family, "");
      StoreText(ip, text.value);
      port := number;
      if v4(text.value) {
        StoreText(family, "ipv4");
        return 0;
      }
      if v6(text.value) {
        StoreText(family, "ipv6");
        return 0;
      }
      return -1;
    }

    /** fossil_net_socket_address_to_string. */
    method ToString(buffer: array?<char>, size: nat) returns (rc: int)
      requires Storage() && (buffer != null ==> buffer !in {ip, addr, family} && size <= buffer.Length)
      modifies buffer
      ensures rc == 0 <==> buffer != null && TextOf(View()).Some? && |TextOf(View()).value| < size
      ensures rc == 0 ==> CStr(buffer[..size]) == TextOf(View()).value
      ensures rc == 0 || rc == -1
      ensures buffer != null ==> buffer[size..] == old(buffer[size..])
      ensures View() == old(View())
    {
      if buffer == null || size == 0 {
        return -1;
      }
      var text := TextOf(View());
      if text.None? {
        return -1;
      }
      DecReads(port);
      var fits := PrintText(buffer, size, text.value);
      return if fits then 0 else -1;
    }
  }

  /** snprintf of a text into `buffer[..size]`; the text fits when its length is below `size`. */
  method PrintText(buffer: array<char>, size: nat, text: string) returns (fits: bool)
    requires 0 < size <= buffer.Length && '\0' !in text
    modifies buffer
    ensures fits <==> |text| < size
    ensures CStr(buffer[..size]) == Cut(text, size) && buffer[size..] == old(buffer[size..])
  {
    ghost var before := buffer[..];
    SafeCopy(buffer, 0, Some(text), size);
    CStrStored(before, 0, text, size);
    assert buffer[0..size] == buffer[..size];
    assert buffer[size..] == before[size..];
    fits := |text| < size;
  }

  // ---------------------------------------------------------------- the text names the address

  lemma FrontIs(text: string, front: string, c: char, back: string)
    requires text == front + [c] + back && c !in front
    ensures IndexOf(text, c) == |front| && text[..|front|] == front && text[|front| + 1..] == back
  {
    assert forall j | 0 <= j < |front| :: text[j] == front[j];
    IndexOfIs(text, c, |front|);
  }

  lemma SplitUnique(text: string, c: char, front: string, back: string, front': string, back': string)
    requires text == front + [c] + back == front' + [c] + back' && c !in front && c !in front'
    ensures front == front' && back == back'
  {
    FrontIs(text, front, c, back);
    FrontIs(text, front', c, back');
  }

  /** A known family, with the text its resolver accepts. */
  predicate Known(a: AddressValue) {
    a.addr == "" && ((a.family == "ipv4" && V4Text(a.ip)) || (a.family == "ipv6" && V6Text(a.ip)))
  }

  lemma ParsedKnown(ip: string, port: nat, v4: string -> bool, v6: string -> bool)
    requires Resolver(v4, v6) && (v4(ip) || v6(ip))
    ensures Known(Parsed(ip, port, v4, v6)) && Parsed(ip, port, v4, v6).ip == ip
  {}

  lemma FamilyShown(a: AddressValue)
    requires Known(a)
    ensures TextOf(a).Some? && TextOf(a).value != ""
    ensures TextOf(a).value[0] == '[' <==> a.family == "ipv6"
  {}

  /** Different parsed addresses never print the same text. */
  lemma TextInjective(a: AddressValue, b: AddressValue)
    requires Known(a) && Known(b)
    ensures TextOf(a) == TextOf(b) <==> a == b
  {
    FamilyShown(a);
    FamilyShown(b);
    if TextOf(a) == TextOf(b) {
      var text := TextOf(a).value;
      if a.family == "ipv4" {
        SplitUnique(text, ':', a.ip, Dec(a.port), b.ip, Dec(b.port));
      } else {
        assert text == "[" + a.ip + [']'] + (":" + Dec(a.port));
        assert text == "[" + b.ip + [']'] + (":" + Dec(b.port));
        SplitUnique(text, ']', "[" + a.ip, ":" + Dec(a.port), "[" + b.ip, ":" + Dec(b.port));
        assert ("[" + a.ip)[1..] == a.ip && ("[" + b.ip)[1..] == b.ip;
        assert (":" + Dec(a.port))[1..] == Dec(a.port) && (":" + Dec(b.port))[1..] == Dec(b.port);
      }
      DecInjective(a.port, b.port);
    }
  }

  /** What parsing leaves: at most 63 characters of the text, the port, and the family, IPv4 first. */
  lemma ParsedParts(ip: string, port: nat, v4: string -> bool, v6: string -> bool)
    ensures var a := Parsed(ip, port, v4, v6);
            && a.ip == Prefix(ip, 63) && a.port == port && a.addr == ""
            && (a.family == "ipv4" <==> v4(ip)) && (a.family == "ipv6" <==> !v4(ip) && v6(ip))
            && (a.family == "" <==> !v4(ip) && !v6(ip))
  {}

  /** A resolved address takes the place of the one parsed. */
  lemma ResolvedShown(a: AddressValue)
    ensures a.addr != "" ==> TextOf(a) == TextOf(a.(ip := a.addr, addr := ""))
    ensures TextOf(a).Some? <==> a.family == "ipv4" || a.family == "ipv6"
  {}

  /** Family, address and port are read back from the text: up to the last colon and the number behind it. */
  lemma TextReadBack(a: AddressValue)
    requires Known(a)
    ensures TextOf(a).Some?
    ensures var text := TextOf(a).value;
            var n := |text| - |Dec(a.port)|;
            && n > 0 && text[n - 1] == ':' && ScanInt(text, n) == Some(a.port)
            && text[..n - 1] == if a.family == "ipv6" then "[" + a.ip + "]" else a.ip
  {
    hide ScanInt, Dec;
    var front := if a.family == "ipv6" then "[" + a.ip + "]:" else a.ip + ":";
    var text := front + "" + DecInt(a.port) + "";
    ScanPrinted(text, front, "", a.port, "");
    assert TextOf(a).value == front + Dec(a.port);
    assert text == front + Dec(a.port);
    assert text[..|front| - 1] == front[..|front| - 1];
  }

  /** An IPv4 address prints as a URL that names it again. */
  lemma V4TextIsUrl(ip: string, port: nat, v4: string -> bool, v6: string -> bool)
    requires Resolver(v4, v6) && v4(ip) && port < 0x1_0000
    ensures TextOf(Parsed(ip, port, v4, v6)).Some?
    ensures UrlOf(TextOf(Parsed(ip, port, v4, v6)).value) == Url("http", ip, port, "/")
  {
    ParsedKnown(ip, port, v4, v6);
    BareHostPort(ip, port);
  }
}
