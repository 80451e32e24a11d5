/**
 * The notification texts. newstr_link, newstr_addr and newstr_away fill a printf
 * template (only %s and %d occur) into a buffer they malloc; the model renders the
 * template and proves that the rendered text and its terminating NUL fit that buffer.
 */
module Text {
  import opened Bytes
  import opened Framing

  // The templates defined at netlink-notify.c:45-47, each written as its plain pieces
  // joined around its conversions.
  const TEXT_NEWLINK: string := "Interface <b>" + ("%s" + ("</b> is <b>" + ("%s" + "</b>.")))
  const TEXT_NEWADDR: string :=
    "Interface <b>" + ("%s" + ("</b> has new " + ("%s" + (" address\n<b>" + ("%s" + ("</b>/" + ("%d" + ".")))))))
  const TEXT_DELLINK: string := "Interface <b>" + ("%s" + "</b> has gone away.")

  /** An argument of a printf call: a string for %s, a non-negative int for %d. */
  datatype Arg = Str(s: string) | Int(n: nat)

  function Digit(d: nat): char
    requires d < 10
  {
    "0123456789"[d]
  }

  /** %d of a non-negative value: its decimal digits, most significant first. */
  function Decimal(n: nat): (r: string)
    ensures |r| >= 1
    decreases n
  {
    if n < 10 then [Digit(n)] else Decimal(n / 10) + [Digit(n % 10)]
  }

  function DigitValue(c: char): nat {
    if '0' <= c <= '9' then (c - '0') as nat else 0
  }

  /** Reads a string of decimal digits back as a number. */
  function ParseDecimal(s: string): nat
    decreases |s|
  {
    if s == [] then 0 else 10 * ParseDecimal(s[..|s| - 1]) + DigitValue(s[|s| - 1])
  }

  /** Decimal renders every value so that it reads back as the same value. */
  lemma {:induction false} DecimalRoundTrip(n: nat)
    ensures ParseDecimal(Decimal(n)) == n
    decreases n
  {
    if n >= 10 {
      DecimalRoundTrip(n / 10);
      var s := Decimal(n);
      assert s[..|s| - 1] == Decimal(n / 10);
    }
  }

  /** A prefix length (an unsigned char) takes at most three digits. */
  lemma DecimalOfByte(n: nat)
    requires n < 256
    ensures |Decimal(n)| <= 3
  {
    if n >= 10 {
      assert |Decimal(n)| == |Decimal(n / 10)| + 1;
      if n / 10 >= 10 {
        assert |Decimal(n / 10)| == |Decimal(n / 100)| + 1;
      }
    }
  }

  /**
   * sprintf restricted to the conversions the templates use: each %s takes the next
   * string argument, each %d the next number; every other character is copied.
   */
  function Format(t: string, args: seq<Arg>): string
    decreases |t|
  {
    if |t| >= 2 && t[0] == '%' && t[1] == 's' && args != [] && args[0].Str? then
      args[0].s + Format(t[2..], args[1..])
    else if |t| >= 2 && t[0] == '%' && t[1] == 'd' && args != [] && args[0].Int? then
      Decimal(args[0].n) + Format(t[2..], args[1..])
    else if t == [] then
      []
    else
      [t[0]] + Format(t[1..], args)
  }

  /** Text without conversions is copied unchanged. */
  lemma {:induction false} FormatLiteral(lit: string, rest: string, args: seq<Arg>)
    requires forall i :: 0 <= i < |lit| ==> lit[i] != '%'
    ensures Format(lit + rest, args) == lit + Format(rest, args)
    decreases |lit|
  {
    if lit == [] {
      assert lit + rest == rest;
    } else {
      assert (lit + rest)[1..] == lit[1..] + rest;
      FormatLiteral(lit[1..], rest, args);
    }
  }

  /** A %s conversion is replaced by its string argument. */
  lemma FormatString(s: string, rest: string, args: seq<Arg>)
    ensures Format("%s" + rest, [Str(s)] + args) == s + Format(rest, args)
  {
    assert ("%s" + rest)[2..] == rest;
    assert ([Str(s)] + args)[1..] == args;
  }

  /** A %d conversion is replaced by the decimal digits of its argument. */
  lemma FormatNumber(n: nat, rest: string, args: seq<Arg>)
    ensures Format("%d" + rest, [Int(n)] + args) == Decimal(n) + Format(rest, args)
  {
    assert ("%d" + rest)[2..] == rest;
    assert ([Int(n)] + args)[1..] == args;
  }

  /** A piece of template text without conversions. */
  predicate Plain(s: string) {
    forall i :: 0 <= i < |s| ==> s[i] != '%'
  }

  /** Plain text followed by %s renders as the text, the argument, and the rest rendered. */
  lemma FormatStringStep(a: string, x: string, rest: string, args: seq<Arg>)
    requires Plain(a)
    ensures Format(a + ("%s" + rest), [Str(x)] + args) == a + x + Format(rest, args)
  {
    FormatLiteral(a, "%s" + rest, [Str(x)] + args);
    FormatString(x, rest, args);
    assert a + (x + Format(rest, args)) == a + x + Format(rest, args);
  }

  /** Plain text followed by %d renders as the text, the digits, and the rest rendered. */
  lemma FormatNumberStep(a: string, n: nat, rest: string, args: seq<Arg>)
    requires Plain(a)
    ensures Format(a + ("%d" + rest), [Int(n)] + args) == a + Decimal(n) + Format(rest, args)
  {
    FormatLiteral(a, "%d" + rest, [Int(n)] + args);
    FormatNumber(n, rest, args);
    assert a + (Decimal(n) + Format(rest, args)) == a + Decimal(n) + Format(rest, args);
  }

  /** Plain text at the end of a template renders as itself. */
  lemma FormatEnd(e: string)
    requires Plain(e)
    ensures Format(e, []) == e
  {
    FormatLiteral(e, [], []);
    assert e + [] == e;
  }

  /** A template with one %s renders as its text around the argument. */
  lemma FormatOne(t: string, a: string, b: string, x: string)
    requires Plain(a) && Plain(b)
    requires t == a + ("%s" + b)
    ensures Format(t, [Str(x)]) == a + x + b
  {
    assert [Str(x)] == [Str(x)] + [];
    FormatStringStep(a, x, b, []);
    FormatEnd(b);
  }

  /** A template with two %s renders as its text around the two arguments. */
  lemma FormatTwo(t: string, a: string, b: string, c: string, x: string, y: string)
    requires Plain(a) && Plain(b) && Plain(c)
    requires t == a + ("%s" + (b + ("%s" + c)))
    ensures Format(t, [Str(x), Str(y)]) == a + x + b + y + c
  {
    assert [Str(x), Str(y)] == [Str(x)] + [Str(y)];
    FormatStringStep(a, x, b + ("%s" + c), [Str(y)]);
    FormatOne(b + ("%s" + c), b, c, y);
    assert a + x + (b + y + c) == a + x + b + y + c;
  }

  /** A template with %s, %s, %s and %d renders as its text around the four arguments. */
  lemma FormatFour(t: string, a: string, b: string, c: string, d: string, e: string,
                   x: string, y: string, z: string, n: nat)
    requires Plain(a) && Plain(b) && Plain(c) && Plain(d) && Plain(e)
    requires t == a + ("%s" + (b + ("%s" + (c + ("%s" + (d + ("%d" + e)))))))
    ensures Format(t, [Str(x), Str(y), Str(z), Int(n)]) == a + x + b + y + c + z + d + Decimal(n) + e
  {
    var t3 := d + ("%d" + e);
    var t2 := c + ("%s" + t3);
    var t1 := b + ("%s" + t2);
    assert [Str(x), Str(y), Str(z), Int(n)] == [Str(x)] + ([Str(y)] + ([Str(z)] + ([Int(n)] + [])));
    FormatStringStep(a, x, t1, [Str(y)] + ([Str(z)] + ([Int(n)] + [])));
    FormatStringStep(b, y, t2, [Str(z)] + ([Int(n)] + []));
    FormatStringStep(c, z, t3, [Int(n)] + []);
    FormatNumberStep(d, n, e, []);
    FormatEnd(e);
    assert a + x + (b + y + (c + z + (d + Decimal(n) + e))) == a + x + b + y + c + z + d + Decimal(n) + e;
  }

  /** newstr_link: the interface name and "up" or "down" after the carrier bit. */
  function NewStrLink(text: string, iface: string, flags: nat): string {
    Format(text, [Str(iface), Str(if Connected(flags) then "up" else "down")])
  }

  /** newstr_addr: the name, "IPv6" or "IP" after the family, the address and the prefix. */
  function NewStrAddr(text: string, iface: string, family: byte, ipaddr: string, prefix: byte): string {
    Format(text, [Str(iface), Str(if family == AF_INET6 then "IPv6" else "IP"), Str(ipaddr), Int(prefix as nat)])
  }

  /** newstr_away: the interface name. */
  function NewStrAway(text: string, iface: string): string {
    Format(text, [Str(iface)])
  }

  /**
   * The link message names the interface and says "up" exactly when the carrier bit is
   * set; with its NUL it fits the strlen(text) + strlen(interface) + 4 bytes allocated.
   */
  lemma LinkText(iface: string, flags: nat)
    ensures var w := if Connected(flags) then "up" else "down";
      NewStrLink(TEXT_NEWLINK, iface, flags) == "Interface <b>" + iface + "</b> is <b>" + w + "</b>."
    ensures |NewStrLink(TEXT_NEWLINK, iface, flags)| + 1 <= |TEXT_NEWLINK| + |iface| + 4
  {
    var w := if Connected(flags) then "up" else "down";
    FormatTwo(TEXT_NEWLINK, "Interface <b>", "</b> is <b>", "</b>.", iface, w);
  }

  /** The plain pieces of TEXT_NEWADDR hold no conversion. */
  lemma AddrTemplatePieces()
    ensures Plain("Interface <b>") && Plain("</b> has new ") && Plain(" address\n<b>") && Plain("</b>/") && Plain(".")
  {
  }

  /**
   * The address message names the interface, the family, the address and the prefix;
   * with its NUL it fits the strlen(text) + strlen(interface) + strlen(ipaddr) bytes
   * allocated, exactly so for an IPv6 address with a three-digit prefix.
   */
  lemma AddrText(iface: string, family: byte, ipaddr: string, prefix: byte)
    ensures var f := if family == AF_INET6 then "IPv6" else "IP";
      NewStrAddr(TEXT_NEWADDR, iface, family, ipaddr, prefix) ==
        "Interface <b>" + iface + "</b> has new " + f + " address\n<b>" + ipaddr + "</b>/" + Decimal(prefix as nat) + "."
    ensures |NewStrAddr(TEXT_NEWADDR, iface, family, ipaddr, prefix)| + 1 <= |TEXT_NEWADDR| + |iface| + |ipaddr|
  {
    var f := if family == AF_INET6 then "IPv6" else "IP";
    AddrTemplatePieces();
    FormatFour(TEXT_NEWADDR, "Interface <b>", "</b> has new ", " address\n<b>", "</b>/", ".",
      iface, f, ipaddr, prefix as nat);
    DecimalOfByte(prefix as nat);
  }

  /**
   * The removal message names the interface; with its NUL it fits the
   * strlen(text) + strlen(interface) bytes allocated.
   */
  lemma AwayText(iface: string)
    ensures NewStrAway(TEXT_DELLINK, iface) == "Interface <b>" + iface + "</b> has gone away."
    ensures |NewStrAway(TEXT_DELLINK, iface)| + 1 <= |TEXT_DELLINK| + |iface|
  {
    FormatOne(TEXT_DELLINK, "Interface <b>", "</b> has gone away.", iface);
  }
}
