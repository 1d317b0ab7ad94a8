/** Virtual IP addresses: a counter of four digits in base 257, printed and read back. */
module VirtualIps {
  import opened Text
  import opened Wrappers

  const BASE := 257
  const CAPACITY := BASE * BASE * BASE * BASE
  /** The reader copies an address into a buffer of this size, with a NUL at the end. */
  const BUFFER := 16

  datatype Address = Address(first: int, second: int, third: int, fourth: int)

  // ---------------------------------------------------------------- printing and reading

  function Components(a: Address): seq<string> {
    [Signed(a.first), Signed(a.second), Signed(a.third), Signed(a.fourth)]
  }

  function Print(a: Address): string { Join(Components(a), '.') }

  lemma PrintIs(a: Address)
    ensures Print(a) == Signed(a.first) + "." + Signed(a.second) + "." + Signed(a.third) + "." + Signed(a.fourth)
  {
    var c := Components(a);
    JoinNext([c[0]], c[1], '.');
    JoinNext([c[0], c[1]], c[2], '.');
    JoinNext([c[0], c[1], c[2]], c[3], '.');
    assert [c[0]] + [c[1]] == [c[0], c[1]];
    assert [c[0], c[1]] + [c[2]] == [c[0], c[1], c[2]];
    assert [c[0], c[1], c[2]] + [c[3]] == c;
  }

  function DigitValue(c: char): int {
    if '0' <= c <= '9' then c as int - '0' as int
    else if 'a' <= c <= 'f' then c as int - 'a' as int + 10
    else if 'A' <= c <= 'F' then c as int - 'A' as int + 10
    else -1
  }

  /** How many digits of the base the text begins with. */
  function DigitCount(s: string, base: nat): (n: nat)
    ensures n <= |s|
  {
    if s != [] && 0 <= DigitValue(s[0]) < base then 1 + DigitCount(s[1..], base) else 0
  }

  function NumberOf(digits: string, base: nat): int {
    if digits == [] then 0 else NumberOf(digits[..|digits| - 1], base) * base + DigitValue(digits[|digits| - 1])
  }

  function SkipBlanks(s: string): string {
    if s != [] && (s[0] == ' ' || s[0] == '\t' || s[0] == '\n' || s[0] == '\r') then SkipBlanks(s[1..]) else s
  }

  function ScanDigits(s: string, base: nat, sign: int): Option<(int, string)> {
    var n := DigitCount(s, base);
    if n == 0 then None else Some((sign * NumberOf(s[..n], base), s[n..]))
  }

  /** An integer as the %i conversion reads it: hexadecimal after 0x, octal after 0, otherwise decimal. */
  function ScanInt(s: string): Option<(int, string)> {
    var t := SkipBlanks(s);
    var sign := if t != [] && t[0] == '-' then -1 else 1;
    var u := if t != [] && (t[0] == '-' || t[0] == '+') then t[1..] else t;
    if |u| > 2 && u[0] == '0' && (u[1] == 'x' || u[1] == 'X') && DigitValue(u[2]) >= 0 then ScanDigits(u[2..], 16, sign)
    else if u != [] && u[0] == '0' then ScanDigits(u, 8, sign)
    else ScanDigits(u, 10, sign)
  }

  /** A dot and an integer. */
  function ScanNext(s: string): Option<(int, string)> {
    if s != [] && s[0] == '.' then ScanInt(s[1..]) else None
  }

  /** Four integers with dots between them, if the text begins with that many. */
  function Parse(s: string): Option<Address> {
    var a := ScanInt(s);
    if a.None? then None else
      var b := ScanNext(a.value.1);
      if b.None? then None else
        var c := ScanNext(b.value.1);
        if c.None? then None else
          var d := ScanNext(c.value.1);
          if d.None? then None else Some(Address(a.value.0, b.value.0, c.value.0, d.value.0))
  }

  /** What is in the four variables of the reader after it read s: the numbers up to the first that cannot
      be read, and behind them what was there before, which the program does not set. */
  function Scan(s: string, unset: Address): (r: Address)
    ensures Parse(s).Some? ==> r == Parse(s).value
    ensures Parse(s).None? ==> r.fourth == unset.fourth
    ensures ScanInt(s).None? ==> r == unset
  {
    var a := ScanInt(s);
    if a.None? then unset else
      var b := ScanNext(a.value.1);
      if b.None? then unset.(first := a.value.0) else
        var c := ScanNext(b.value.1);
        if c.None? then unset.(first := a.value.0, second := b.value.0) else
          var d := ScanNext(c.value.1);
          Address(a.value.0, b.value.0, c.value.0, if d.None? then unset.fourth else d.value.0)
  }

  predicate Readable(s: string) { |s| < BUFFER && Parse(s).Some? }

  lemma {:induction false} CountDigits(digits: string, rest: string)
    requires Digits(digits) && (rest == [] || rest[0] == '.')
    ensures DigitCount(digits + rest, 10) == |digits|
  {
    if digits == [] {
      assert digits + rest == rest;
    } else {
      assert (digits + rest)[1..] == digits[1..] + rest;
      CountDigits(digits[1..], rest);
    }
  }

  lemma {:induction false} NumberIsValue(digits: string)
    requires Digits(digits)
    ensures NumberOf(digits, 10) == Value(digits)
  {
    if digits != [] {
      NumberIsValue(digits[..|digits| - 1]);
    }
  }

  lemma {:induction false} NoLeadingZero(n: nat)
    requires n > 0
    ensures Decimal(n)[0] != '0'
  {
    if n >= 10 {
      NoLeadingZero(n / 10);
    }
  }

  lemma ScanDecimal(n: nat, rest: string, sign: int)
    requires rest == [] || rest[0] == '.'
    ensures var s := Decimal(n) + rest;
            && (s[0] == '0' ==> n == 0 && ScanDigits(s, 8, sign) == Some((0, rest)) && (|s| > 1 ==> s[1] == '.'))
            && (s[0] != '0' ==> ScanDigits(s, 10, sign) == Some((sign * n, rest)))
  {
    var (d, s) := (Decimal(n), Decimal(n) + rest);
    if n == 0 {
      assert d == "0" && s[1..] == rest;
      assert DigitCount(rest, 8) == 0;
      assert DigitCount(s, 8) == 1;
      assert s[..1] == "0";
      assert NumberOf("0", 8) == NumberOf("", 8) * 8 + 0 by { assert "0"[..0] == ""; }
    } else {
      NoLeadingZero(n);
      CountDigits(d, rest);
      NumberIsValue(d);
      ValueOfDecimal(n);
      assert s[..|d|] == d && s[|d|..] == rest;
    }
  }

  /** Reading takes exactly the number that was printed in front of a dot or at the end. */
  lemma ScanPrinted(i: int, rest: string)
    requires rest == [] || rest[0] == '.'
    ensures ScanInt(Signed(i) + rest) == Some((i, rest))
  {
    var s := Signed(i) + rest;
    assert s[0] == Signed(i)[0] && SkipBlanks(s) == s;
    if i < 0 {
      ScanDecimal(-i, rest, -1);
      NoLeadingZero(-i);
      assert s[1..] == Decimal(-i) + rest;
    } else {
      ScanDecimal(i, rest, 1);
    }
  }

  lemma ScanPrintedNext(i: int, rest: string)
    requires rest == [] || rest[0] == '.'
    ensures ScanNext("." + (Signed(i) + rest)) == Some((i, rest))
  {
    ScanPrinted(i, rest);
    assert ("." + (Signed(i) + rest))[1..] == Signed(i) + rest;
  }

  /** Printing and reading back is the identity. */
  lemma ParsePrinted(a: Address)
    ensures Parse(Print(a)) == Some(a)
  {
    var s4 := "." + (Signed(a.fourth) + "");
    var s3 := "." + (Signed(a.third) + s4);
    var s2 := "." + (Signed(a.second) + s3);
    PrintIs(a);
    assert Print(a) == Signed(a.first) + s2;
    ScanPrinted(a.first, s2);
    ScanPrintedNext(a.second, s3);
    ScanPrintedNext(a.third, s4);
    ScanPrintedNext(a.fourth, "");
  }

  /** A text with fewer than four numbers sets only the first fields, and one without a number none. */
  lemma ShortTextSetsFirstFields(a: Address, unset: Address)
    ensures Scan("", unset) == unset
    ensures Scan(Signed(a.first), unset) == unset.(first := a.first)
    ensures Scan(Signed(a.first) + ("." + Signed(a.second)), unset) == unset.(first := a.first, second := a.second)
    ensures Scan(Signed(a.first) + ("." + (Signed(a.second) + ("." + Signed(a.third)))), unset) ==
            unset.(first := a.first, second := a.second, third := a.third)
  {
    var (s2, s3) := ("." + (Signed(a.second) + ""), "." + (Signed(a.third) + ""));
    assert Signed(a.first) + "" == Signed(a.first) && Signed(a.second) + "" == Signed(a.second);
    assert Signed(a.third) + "" == Signed(a.third);
    ScanPrinted(a.first, "");
    ScanPrinted(a.first, s2);
    ScanPrinted(a.first, "." + (Signed(a.second) + s3));
    ScanPrintedNext(a.second, "");
    ScanPrintedNext(a.second, s3);
    ScanPrintedNext(a.third, "");
  }

  /** The other forms of a number: blanks and a plus in front of it, hexadecimal and octal digits; what
      comes behind the digits is left. */
  lemma OtherNumberForms()
    ensures ScanInt(" +9") == Some((9, ""))
    ensures ScanInt("-0x1F") == Some((-31, ""))
    ensures ScanInt("0178") == Some((15, "8"))
    ensures ScanInt("x") == None && ScanInt("") == None
  {
    Decimals();
    Hexadecimals();
    Octals();
  }

  lemma Decimals()
    ensures ScanInt(" +9") == Some((9, ""))
  {
    assert " +9"[1..] == "+9" && "+9"[1..] == "9" && "9"[1..] == "" && "9"[..1] == "9" && "9"[..0] == "";
    assert NumberOf("9", 10) == NumberOf("", 10) * 10 + 9;
  }

  lemma Hexadecimals()
    ensures ScanInt("-0x1F") == Some((-31, ""))
  {
    assert "-0x1F"[1..] == "0x1F" && "0x1F"[2..] == "1F" && "1F"[1..] == "F" && "F"[1..] == "";
    assert "1F"[..2] == "1F" && "1F"[2..] == "" && "1F"[..1] == "1" && "1"[..0] == "";
    assert NumberOf("1", 16) == NumberOf("", 16) * 16 + 1 && NumberOf("1F", 16) == NumberOf("1", 16) * 16 + 15;
  }

  lemma Octals()
    ensures ScanInt("0178") == Some((15, "8"))
  {
    assert "0178"[1..] == "178" && "178"[1..] == "78" && "78"[1..] == "8";
    assert "0178"[..3] == "017" && "0178"[3..] == "8" && "017"[..2] == "01" && "01"[..1] == "0" && "0"[..0] == "";
    assert NumberOf("0", 8) == NumberOf("", 8) * 8 + 0 && NumberOf("01", 8) == 1 && NumberOf("017", 8) == 15;
  }

  /** Two addresses that print alike are the same. */
  lemma PrintIsInjective(a: Address, b: Address)
    requires Print(a) == Print(b)
    ensures a == b
  {
    ParsePrinted(a);
    ParsePrinted(b);
  }

  // ---------------------------------------------------------------- counting

  predicate InRange(a: Address) {
    0 <= a.first < BASE && 0 <= a.second < BASE && 0 <= a.third < BASE && 0 <= a.fourth < BASE
  }

  /** The address as a number. */
  function Number(a: Address): int {
    ((a.first * BASE + a.second) * BASE + a.third) * BASE + a.fourth
  }

  /** An address that was counted up to fits the buffer. */
  lemma PrintedFits(a: Address)
    requires InRange(a)
    ensures Readable(Print(a)) && Print(a) != ""
  {
    ParsePrinted(a);
    PrintIs(a);
    ThreeDigits(a.first);
    ThreeDigits(a.second);
    ThreeDigits(a.third);
    ThreeDigits(a.fourth);
  }

  lemma ThreeDigits(n: nat)
    requires n < 1000
    ensures |Signed(n)| <= 3
  {
    assert n / 10 < 100 && n / 10 / 10 < 10;
    assert |Decimal(n / 10 / 10)| == 1;
    assert |Decimal(n / 10)| <= 2;
  }

  /** The next address: the lowest digit that is not at its limit goes up, those below it go to 0. */
  function Incremented(a: Address): Option<Address> {
    if a.fourth < 256 then Some(a.(fourth := a.fourth + 1))
    else if a.third < 256 then Some(Address(a.first, a.second, a.third + 1, 0))
    else if a.second < 256 then Some(Address(a.first, a.second + 1, 0, 0))
    else if a.first < 256 then Some(Address(a.first + 1, 0, 0, 0))
    else None
  }

  /** Counting up is the exact successor, and stops only at the last address. */
  lemma IncrementIsSuccessor(a: Address)
    requires InRange(a)
    ensures Incremented(a).None? <==> Number(a) + 1 == CAPACITY
    ensures Incremented(a).Some? ==> InRange(Incremented(a).value) && Number(Incremented(a).value) == Number(a) + 1
  {}

  class VirtualIPs {
    var first: int
    var second: int
    var third: int
    var fourth: int

    function Value(): Address
      reads this
    {
      Address(first, second, third, fourth)
    }

    constructor ()
      ensures Value() == Address(-1, -1, -1, -1)
    {
      first, second, third, fourth := -1, -1, -1, -1;
    }

    /** Any text that fits the reader's buffer. */
    method SetVirtualIP(newVIP: string, unset: Address)
      requires |newVIP| < BUFFER
      modifies this
      ensures Value() == Scan(newVIP, unset)
      ensures Parse(newVIP).Some? ==> Some(Value()) == Parse(newVIP)
    {
      var ip := Scan(newVIP, unset);
      first := ip.first;
      second := ip.second;
      third := ip.third;
      fourth := ip.fourth;
    }

    method GetVirtualIP() returns (s: string)
      ensures s == Print(Value())
    {
      s := Signed(first) + "." + Signed(second) + "." + Signed(third) + "." + Signed(fourth);
      PrintIs(Value());
    }

    /** Counts up by one; without a next address nothing changes. */
    method IncVirtualIP() returns (vip: string)
      modifies this
      ensures var next := Incremented(old(Value()));
              if next.Some? then Value() == next.value && vip == Print(next.value)
              else Value() == old(Value()) && vip == ""
    {
      var error := false;
      vip := "";
      if fourth < 256 {
        fourth := fourth + 1;
      } else {
        if third < 256 {
          third := third + 1;
          fourth := 0;
        } else {
          if second < 256 {
            second := second + 1;
            third := 0;
            fourth := 0;
          } else {
            if first < 256 {
              first := first + 1;
              second := 0;
              third := 0;
              fourth := 0;
            } else {
              vip := "";
              error := true;
            }
          }
        }
      }
      if !error {
        vip := GetVirtualIP();
      }
    }
  }
}
