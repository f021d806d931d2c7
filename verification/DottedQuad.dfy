/** The dotted decimal text of an IPv4 address, and that it determines the address. */
module DottedQuad {
  import opened BigEndian

  function Digit(d: nat): (c: char)
    requires d < 10
    ensures c != '.'
  {
    '0' + d as char
  }

  /** A byte in decimal, without leading zeros. */
  function Octet(b: Byte): (s: string)
    ensures '.' !in s
  {
    if b < 10 then [Digit(b)]
    else if b < 100 then [Digit(b / 10), Digit(b % 10)]
    else [Digit(b / 100), Digit(b / 10 % 10), Digit(b % 10)]
  }

  lemma OctetInjective(a: Byte, b: Byte)
    requires Octet(a) == Octet(b)
    ensures a == b
  {
    hide Octet;
    OctetIs(a);
    OctetIs(b);
  }

  function Dotted(ip: seq<Byte>): string
    requires |ip| == 4
  {
    Octet(ip[0]) + "." + (Octet(ip[1]) + "." + (Octet(ip[2]) + "." + Octet(ip[3])))
  }

  /** Text up to the first dot is unambiguous. */
  lemma SplitAtDot(a: string, b: string, x: string, y: string)
    requires '.' !in a && '.' !in b
    requires a + "." + x == b + "." + y
    ensures a == b && x == y
  {
    var s, t := a + "." + x, b + "." + y;
    assert s[|a|] == '.' && t[|b|] == '.';
    assert |a| == |b|;
    assert a == s[..|a|] && b == t[..|b|];
    assert x == s[|a| + 1..] && y == t[|b| + 1..];
  }

  lemma DottedInjective(a: seq<Byte>, b: seq<Byte>)
    requires |a| == 4 && |b| == 4
    requires Dotted(a) == Dotted(b)
    ensures a == b
  {
    SplitAtDot(Octet(a[0]), Octet(b[0]),
               Octet(a[1]) + "." + (Octet(a[2]) + "." + Octet(a[3])),
               Octet(b[1]) + "." + (Octet(b[2]) + "." + Octet(b[3])));
    SplitAtDot(Octet(a[1]), Octet(b[1]), Octet(a[2]) + "." + Octet(a[3]), Octet(b[2]) + "." + Octet(b[3]));
    SplitAtDot(Octet(a[2]), Octet(b[2]), Octet(a[3]), Octet(b[3]));
    OctetInjective(a[0], b[0]);
    OctetInjective(a[1], b[1]);
    OctetInjective(a[2], b[2]);
    OctetInjective(a[3], b[3]);
  }

  // ----- what the text says -----

  predicate AllDigits(s: string) {
    forall i | 0 <= i < |s| :: '0' <= s[i] <= '9'
  }

  /** The number that decimal digits stand for. */
  function Decimal(s: string): nat
    requires AllDigits(s)
  {
    if s == [] then 0 else Decimal(s[..|s| - 1]) * 10 + (s[|s| - 1] - '0') as nat
  }

  /** The decimal numeral of n, without leading zeros. */
  ghost predicate Numeral(s: string, n: nat) {
    AllDigits(s) && s != [] && (|s| == 1 || s[0] != '0') && Decimal(s) == n
  }

  lemma DecimalAppend(s: string, d: nat)
    requires AllDigits(s) && d < 10
    ensures AllDigits(s + [Digit(d)]) && Decimal(s + [Digit(d)]) == Decimal(s) * 10 + d
    ensures Digit(d) == '0' <==> d == 0
  {
    assert (s + [Digit(d)])[..|s|] == s;
  }

  lemma OctetIs(b: Byte)
    ensures Numeral(Octet(b), b)
  {
    hide Digit, Decimal;
    EmptyDecimal();
    if b < 10 {
      DecimalAppend([], b);
      assert [] + [Digit(b)] == [Digit(b)];
    } else if b < 100 {
      DecimalAppend([], b / 10);
      assert [] + [Digit(b / 10)] == [Digit(b / 10)];
      DecimalAppend([Digit(b / 10)], b % 10);
      assert [Digit(b / 10)] + [Digit(b % 10)] == Octet(b);
    } else {
      DecimalAppend([], b / 100);
      assert [] + [Digit(b / 100)] == [Digit(b / 100)];
      DecimalAppend([Digit(b / 100)], b / 10 % 10);
      DecimalAppend([Digit(b / 100)] + [Digit(b / 10 % 10)], b % 10);
      assert [Digit(b / 100)] + [Digit(b / 10 % 10)] + [Digit(b % 10)] == Octet(b);
    }
  }

  lemma EmptyDecimal()
    ensures Decimal([]) == 0
  {
  }

  /** The text of an address is its four bytes in decimal, first byte first, with dots between them. */
  lemma DottedIs(ip: seq<Byte>) returns (w: string, x: string, y: string, z: string)
    requires |ip| == 4
    ensures Dotted(ip) == w + "." + x + "." + y + "." + z
    ensures Numeral(w, ip[0]) && Numeral(x, ip[1]) && Numeral(y, ip[2]) && Numeral(z, ip[3])
  {
    w, x, y, z := Octet(ip[0]), Octet(ip[1]), Octet(ip[2]), Octet(ip[3]);
    OctetIs(ip[0]);
    OctetIs(ip[1]);
    OctetIs(ip[2]);
    OctetIs(ip[3]);
    assert Dotted(ip) == w + "." + x + "." + y + "." + z;
  }
}
