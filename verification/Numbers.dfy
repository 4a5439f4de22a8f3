/** Numbers as strtol reads them and as the C++ streams read and print them. */
module Numbers {
  import opened Text

  /** The value of a digit; 36 for what is none in any base. */
  function DigitOf(c: char): (d: nat)
    ensures d <= 36
  {
    if '0' <= c <= '9' then c as int - '0' as int
    else if 'a' <= c <= 'z' then c as int - 'a' as int + 10
    else if 'A' <= c <= 'Z' then c as int - 'A' as int + 10
    else 36
  }

  datatype Base = Oct | Dec | Hex

  function Size(b: Base): nat
  {
    match b case Oct => 8 case Dec => 10 case Hex => 16
  }

  function Times(n: nat, b: Base): nat
  {
    match b case Oct => 8 * n case Dec => 10 * n case Hex => 16 * n
  }

  /** How many digits s starts with. */
  function DigitsLength(s: string, b: Base): (n: nat)
    ensures n <= |s| && (forall i :: 0 <= i < n ==> DigitOf(s[i]) < Size(b))
    ensures n < |s| ==> DigitOf(s[n]) >= Size(b)
  {
    if s != "" && DigitOf(s[0]) < Size(b) then DigitsLength(s[1..], b) + 1 else 0
  }

  function DigitsValue(digits: string, b: Base): nat
  {
    if digits == "" then 0
    else Times(DigitsValue(digits[..|digits| - 1], b), b) + DigitOf(digits[|digits| - 1])
  }

  lemma DigitsLengthIs(digits: string, more: string, b: Base)
    requires forall i :: 0 <= i < |digits| ==> DigitOf(digits[i]) < Size(b)
    requires more == "" || DigitOf(more[0]) >= Size(b)
    ensures DigitsLength(digits + more, b) == |digits|
  {
    var s := digits + more;
    assert forall i :: 0 <= i < |digits| ==> s[i] == digits[i];
    assert more != "" ==> s[|digits|] == more[0];
  }

  const LONG_MAX := 0x7fff_ffff_ffff_ffff
  const INT_MAX := 0x7fff_ffff

  function Clamp(x: int, max: int): int
  {
    if x > max then max else if x < -max - 1 then -max - 1 else x
  }

  /** The conversion of a long to an int. */
  function ToInt(x: int): (i: int)
    ensures -INT_MAX - 1 <= i <= INT_MAX
    ensures -INT_MAX - 1 <= x <= INT_MAX ==> i == x
  {
    (x + 0x8000_0000) % 0x1_0000_0000 - 0x8000_0000
  }

  /** The C string: up to the first NUL. */
  function CStr(s: string): (r: string)
    ensures |r| <= |s|
    ensures 0 as char !in s ==> r == s
  {
    if s == "" || s[0] == 0 as char then "" else [s[0]] + CStr(s[1..])
  }

  predicate IsNegative(t: string)
  {
    t != "" && t[0] == '-'
  }

  function Signed(t: string, n: int): int
  {
    if IsNegative(t) then -n else n
  }

  function Unsigned(t: string): string
  {
    if t != "" && (t[0] == '-' || t[0] == '+') then t[1..] else t
  }

  /** The base that strtol chooses when asked for base 0, and the digits it then reads. */
  function BaseOf(u: string): Base
  {
    if |u| > 2 && u[0] == '0' && (u[1] == 'x' || u[1] == 'X') && DigitOf(u[2]) < 16 then Hex
    else if u != "" && u[0] == '0' then Oct
    else Dec
  }

  /** getValueAsNumber: strtol with base 0, and 0 unless all of the value is a number. */
  function Number(value: string): int
  {
    var t := LTrim(CStr(value));
    var u, b := Unsigned(t), BaseOf(Unsigned(t));
    var digits := if b == Hex then u[2..] else u;
    if digits == "" || DigitsLength(digits, b) < |digits| then 0
    else Clamp(Signed(t, DigitsValue(digits, b)), LONG_MAX)
  }

  // ----- printing

  function Digit(d: nat): (c: char)
    requires d < 10
    ensures DigitOf(c) == d && !IsSpace(c) && c != '-' && c != '+' && c != 0 as char && (c == '0' <==> d == 0)
  {
    ('0' as int + d) as char
  }

  function Decimal(n: nat): (s: string)
    ensures s != ""
  {
    if n < 10 then [Digit(n)] else Decimal(n / 10) + [Digit(n % 10)]
  }

  /** operator<< for int. */
  function PrintInt(i: int): string
  {
    if i < 0 then "-" + Decimal(-i) else Decimal(i)
  }

  lemma {:induction false} DecimalDigits(n: nat)
    ensures forall i :: 0 <= i < |Decimal(n)| ==>
              var c := Decimal(n)[i];
              DigitOf(c) < 10 && !IsSpace(c) && c != '-' && c != '+' && c != 0 as char
    ensures Decimal(n)[0] == '0' <==> n == 0
    ensures DigitsValue(Decimal(n), Dec) == n
  {
    if n >= 10 {
      DecimalDigits(n / 10);
      var s := Decimal(n / 10) + [Digit(n % 10)];
      assert s[..|s| - 1] == Decimal(n / 10);
    } else {
      assert DigitsValue("", Dec) == 0;
      assert [Digit(n)][..0] == "";
    }
  }

  lemma OctalZero()
    ensures |Decimal(0)| == 1 && DigitsValue(Decimal(0), Oct) == 0 && DigitOf(Decimal(0)[0]) == 0
  {
    assert DigitsValue("", Oct) == 0;
    assert Decimal(0)[..0] == "";
  }

  /** A printed length is read back. */
  lemma NumberOfDecimal(n: nat)
    requires n <= LONG_MAX
    ensures Number(Decimal(n)) == n
  {
    hide Decimal, DigitsValue, DigitOf;
    DecimalDigits(n);
    var s := Decimal(n);
    assert CStr(s) == s;
    assert LTrim(s) == s;
    assert s + "" == s;
    DigitsLengthIs(s, "", Dec);
    if n == 0 {
      OctalZero();
      DigitsLengthIs(s, "", Oct);
    }
  }

  lemma {:induction false} OctalBelowDecimal(digits: string)
    ensures DigitsValue(digits, Oct) <= DigitsValue(digits, Dec)
    ensures DigitsValue(digits, Oct) == DigitsValue(digits, Dec) <==> |digits| == 0 || DigitsValue(digits[..|digits| - 1], Dec) == 0
  {
    if digits != "" {
      OctalBelowDecimal(digits[..|digits| - 1]);
    }
  }

  lemma {:induction false} ValueAtLeast(digits: string, i: nat)
    requires i < |digits|
    ensures DigitsValue(digits, Dec) >= DigitOf(digits[i])
  {
    var n := |digits| - 1;
    if i < n {
      ValueAtLeast(digits[..n], i);
    }
  }

  lemma DigitRange(c: char)
    ensures '0' <= c <= '9' <==> DigitOf(c) < 10
    ensures '0' <= c <= '9' ==> !IsSpace(c) && c != '-' && c != '+' && c != 'x' && c != 'X' && c != 0 as char
  {
  }

  lemma NumberOfDigits(digits: string)
    requires digits != "" && forall i :: 0 <= i < |digits| ==> DigitOf(digits[i]) < 10
    ensures Number(digits) == if digits[0] != '0' then Clamp(DigitsValue(digits, Dec), LONG_MAX)
                              else if DigitsLength(digits, Oct) < |digits| then 0
                              else Clamp(DigitsValue(digits, Oct), LONG_MAX)
  {
    hide DigitsValue, DigitsLength, DigitOf, CStr, LTrim, Unsigned, IsNegative, BaseOf, Clamp;
    PlainDigits(digits);
    DigitsLengthIs(digits, "", Dec);
    assert digits + "" == digits;
  }

  lemma PlainDigits(digits: string)
    requires digits != "" && forall i :: 0 <= i < |digits| ==> DigitOf(digits[i]) < 10
    ensures CStr(digits) == digits && LTrim(digits) == digits && Unsigned(digits) == digits && !IsNegative(digits)
    ensures BaseOf(digits) == if digits[0] == '0' then Oct else Dec
  {
    hide DigitOf, IsSpace, CStr, LTrim;
    DigitRange(digits[0]);
    NoSpaceFirst(digits);
    if |digits| > 2 {
      DigitRange(digits[1]);
    }
    forall i | 0 <= i < |digits| ensures digits[i] != 0 as char {
      DigitRange(digits[i]);
    }
  }

  lemma NoSpaceFirst(s: string)
    requires s != "" && !IsSpace(s[0])
    ensures LTrim(s) == s
  {
  }

  /**
   A Content-Length is decimal (section 3.3.2 of RFC 7230), but one that starts with 0 is read as octal: its value is
   the decimal one exactly when it does not start with 0 or is below 8.
  */
  lemma LeadingZeroIsOctal(digits: string)
    requires digits != "" && forall i :: 0 <= i < |digits| ==> DigitOf(digits[i]) < 10
    requires DigitsValue(digits, Dec) <= LONG_MAX
    ensures Number(digits) == DigitsValue(digits, Dec) <==> digits[0] != '0' || DigitsValue(digits, Dec) < 8
  {
    hide DigitsValue, Number, DigitOf;
    NumberOfDigits(digits);
    if digits[0] == '0' {
      var n := DigitsLength(digits, Oct);
      if n < |digits| {
        ValueAtLeast(digits, n);
      } else {
        OctalBelowDecimal(digits);
        LastDigit(digits);
      }
    }
  }

  lemma LastDigit(digits: string)
    requires digits != "" && DigitOf(digits[|digits| - 1]) < 8
    ensures DigitsValue(digits, Dec) < 8 <==> DigitsValue(digits[..|digits| - 1], Dec) == 0
  {
  }

  // ----- operator>> for int

  datatype IntResult = Unread | IntRead(value: int)

  /** The int is left alone when there is nothing to read; what is no number reads as 0. */
  function ReadInt(s: string): IntResult
  {
    var t := LTrim(s);
    if t == "" then Unread
    else
      var u := Unsigned(t);
      var digits := u[..DigitsLength(u, Dec)];
      IntRead(Clamp(Signed(t, DigitsValue(digits, Dec)), INT_MAX))
  }

  /** A printed number is read back if it is an int; others are cut to the nearest int. */
  lemma ReadPrinted(i: int, more: string)
    requires more == "" || IsSpace(more[0])
    ensures ReadInt(" " + PrintInt(i) + more)
         == IntRead(if i >= 0x8000_0000 then 0x7fff_ffff else if i < -0x8000_0000 then -0x8000_0000 else i)
  {
    hide Decimal, DigitsValue, DigitOf;
    var n := if i < 0 then -i else i;
    DecimalDigits(n);
    var d := Decimal(n);
    SpaceIsNoDigit(more);
    if i < 0 {
      assert ("-" + d + more)[1..] == d + more;
      assert " " + PrintInt(i) + more == " " + ("-" + d + more);
      ReadDigits("-" + d + more, d, more);
    } else {
      assert " " + PrintInt(i) + more == " " + (d + more);
      ReadDigits(d + more, d, more);
    }
  }

  /** White space holds no number. */
  lemma NothingToRead(s: string)
    requires AllSpace(s)
    ensures ReadInt(s) == Unread
  {
    hide DigitsValue, DigitsLength, Unsigned, Signed, Clamp, AllSpace, LTrim;
    LTrimAll(s);
  }

  lemma ReadDigits(t: string, d: string, more: string)
    requires t != "" && !IsSpace(t[0]) && Unsigned(t) == d + more
    requires (forall i :: 0 <= i < |d| ==> DigitOf(d[i]) < 10) && (more == "" || DigitOf(more[0]) >= 10)
    ensures ReadInt(" " + t) == IntRead(Clamp(Signed(t, DigitsValue(d, Dec)), INT_MAX))
  {
    hide DigitsValue, DigitOf, Unsigned, Signed, Clamp;
    LTrimSpaces(" ", t);
    assert LTrim(t) == t;
    DigitsLengthIs(d, more, Dec);
    assert (d + more)[..|d|] == d;
  }

  lemma SpaceIsNoDigit(more: string)
    requires more == "" || IsSpace(more[0])
    ensures more == "" || DigitOf(more[0]) >= 10
  {
  }

  // ----- the size of a chunk

  /** strtol of "0x" and the line in base 16, as an int. */
  function ChunkSize(line: string): int
  {
    ToInt(Clamp(DigitsValue(line[..DigitsLength(line, Hex)], Hex), LONG_MAX))
  }

  lemma NoSize()
    ensures ChunkSize("") == 0
  {
  }

  /** A size followed by nothing or by an extension. */
  lemma SizeOfLine(digits: string, ext: string)
    requires (forall i :: 0 <= i < |digits| ==> DigitOf(digits[i]) < 16) && (ext == "" || ext[0] == ';')
    requires DigitsValue(digits, Hex) <= INT_MAX
    ensures ChunkSize(digits + ext) == DigitsValue(digits, Hex)
  {
    hide DigitsValue, DigitsLength;
    DigitsLengthIs(digits, ext, Hex);
    assert (digits + ext)[..|digits|] == digits;
  }

  // ----- numbers printed with given digits

  /** The digits of base 16, in lower or in upper case. */
  predicate IsHexAlphabet(digits: string): (r: bool)
    ensures r ==> |digits| == 16
  {
    digits == "0123456789abcdef" || digits == "0123456789ABCDEF"
  }

  function HexOf(digits: string, n: nat): (s: string)
    requires |digits| == 16
    ensures s != ""
  {
    if n < 16 then [digits[n]] else HexOf(digits, n / 16) + [digits[n % 16]]
  }

  function OctalOf(n: nat): (s: string)
    ensures s != ""
  {
    if n < 8 then ["01234567"[n]] else OctalOf(n / 8) + ["01234567"[n % 8]]
  }

  function DecimalOf(n: nat): (s: string)
    ensures s != ""
  {
    if n < 10 then ["0123456789"[n]] else DecimalOf(n / 10) + ["0123456789"[n % 10]]
  }

  /** There are no other digits. */
  lemma HexDigitsAre(c: char)
    ensures DigitOf(c) < 16 <==> exists d :: 0 <= d < 16 && c in ["0123456789abcdef"[d], "0123456789ABCDEF"[d]]
    ensures DigitOf(c) < 10 <==> '0' <= c <= '9'
    ensures DigitOf(c) < 8 <==> '0' <= c <= '7'
  {
    if d :| 0 <= d < 16 && c in ["0123456789abcdef"[d], "0123456789ABCDEF"[d]] {
      HexDigit("0123456789abcdef", d);
      HexDigit("0123456789ABCDEF", d);
    }
    if DigitOf(c) < 16 {
      HexChar(c);
    }
  }

  lemma HexChar(c: char)
    requires DigitOf(c) < 16
    ensures c in ["0123456789abcdef"[DigitOf(c)], "0123456789ABCDEF"[DigitOf(c)]]
  {
  }

  lemma HexDigit(digits: string, d: nat)
    requires IsHexAlphabet(digits) && d < 16
    ensures DigitOf(digits[d]) == d && digits[d] != 0 as char
  {
  }

  lemma OctalDigit(d: nat)
    requires d < 8
    ensures DigitOf("01234567"[d]) == d && "01234567"[d] != 0 as char && "01234567"[d] != 'x' && "01234567"[d] != 'X'
  {
  }

  lemma {:induction false} HexDigits(digits: string, n: nat)
    requires IsHexAlphabet(digits)
    ensures var s := HexOf(digits, n);
            && (forall i :: 0 <= i < |s| ==> DigitOf(s[i]) < 16 && s[i] != 0 as char)
            && DigitsValue(s, Hex) == n
  {
    hide DigitOf, IsHexAlphabet;
    var s := HexOf(digits, n);
    HexDigit(digits, n % 16);
    if n >= 16 {
      HexDigits(digits, n / 16);
      assert s[..|s| - 1] == HexOf(digits, n / 16);
    } else {
      assert s[..0] == "" && DigitsValue("", Hex) == 0;
    }
  }

  lemma HexZero()
    ensures |"0"| == 1 && DigitsValue("0", Hex) == 0 && DigitOf('0') == 0
  {
    assert "0"[..0] == "" && DigitsValue("", Hex) == 0;
  }

  lemma {:induction false} OctalDigits(n: nat)
    ensures var s := OctalOf(n);
            && (forall i :: 0 <= i < |s| ==> DigitOf(s[i]) < 8 && s[i] != 0 as char && s[i] != 'x' && s[i] != 'X')
            && DigitsValue(s, Oct) == n
  {
    hide DigitOf;
    var s := OctalOf(n);
    OctalDigit(n % 8);
    if n >= 8 {
      OctalDigits(n / 8);
      assert s[..|s| - 1] == OctalOf(n / 8);
    } else {
      assert s[..0] == "" && DigitsValue("", Oct) == 0;
    }
  }

  /** Printing is in decimal, with these digits. */
  lemma {:induction false} DecimalIsDecimal(n: nat)
    ensures Decimal(n) == DecimalOf(n)
  {
    assert Digit(n % 10) == "0123456789"[n % 10];
    if n >= 10 {
      DecimalIsDecimal(n / 10);
    }
  }

  /**
   The size of a chunk that is printed in hex, in either case and with any extension: it is read as it is while it fits an
   int, above that it wraps around, and beyond a long it is -1.
  */
  lemma ChunkSizeOfHex(digits: string, n: nat, ext: string)
    requires IsHexAlphabet(digits) && (ext == "" || ext[0] == ';')
    ensures var size := ChunkSize(HexOf(digits, n) + ext);
            && (n < 0x8000_0000 ==> size == n)
            && (n < 0x8000_0000_0000_0000 ==> -0x8000_0000 <= size < 0x8000_0000 && (n - size) % 0x1_0000_0000 == 0)
            && (n >= 0x8000_0000_0000_0000 ==> size == -1)
  {
    hide DigitsValue, DigitsLength, DigitOf, HexOf, IsHexAlphabet;
    var s := HexOf(digits, n);
    HexDigits(digits, n);
    SemicolonIsNoDigit(ext);
    DigitsLengthIs(s, ext, Hex);
    assert (s + ext)[..|s|] == s;
  }

  lemma SemicolonIsNoDigit(ext: string)
    requires ext == "" || ext[0] == ';'
    ensures ext == "" || DigitOf(ext[0]) >= 16
  {
  }

  /** A number in the notations of C: after 0x in hex, after 0 in octal; what does not fit a long is cut to it. */
  lemma NumberOfHex(digits: string, n: nat)
    requires IsHexAlphabet(digits)
    ensures Number("0x" + HexOf(digits, n)) == if n <= 0x7fff_ffff_ffff_ffff then n else 0x7fff_ffff_ffff_ffff
  {
    hide DigitsValue, DigitsLength, DigitOf, HexOf, IsHexAlphabet, CStr, LTrim, Unsigned, BaseOf, IsNegative;
    var s := HexOf(digits, n);
    HexDigits(digits, n);
    HexPrefix(s);
    assert ("0x" + s)[2..] == s;
    DigitsLengthIs(s, "", Hex);
    assert s + "" == s;
  }

  lemma Plain(t: string)
    requires t != "" && '0' <= t[0] <= '9' && forall i :: 0 <= i < |t| ==> t[i] != 0 as char
    ensures LTrim(CStr(t)) == t && Unsigned(t) == t && !IsNegative(t)
  {
    hide CStr, LTrim;
    NoNul(t);
    NoSpaceFirst(t);
  }

  lemma HexPrefix(s: string)
    requires s != "" && forall i :: 0 <= i < |s| ==> DigitOf(s[i]) < 16 && s[i] != 0 as char
    ensures var t := "0x" + s;
            LTrim(CStr(t)) == t && Unsigned(t) == t && !IsNegative(t) && BaseOf(t) == Hex
  {
    hide DigitOf, CStr, LTrim, Unsigned, IsNegative;
    var t := "0x" + s;
    assert t[0] == '0' && t[1] == 'x' && forall i :: 2 <= i < |t| ==> t[i] == s[i - 2];
    Plain(t);
  }

  lemma OctalPrefix(s: string)
    requires s != "" && s[0] != 'x' && s[0] != 'X' && forall i :: 0 <= i < |s| ==> s[i] != 0 as char
    ensures var t := "0" + s;
            LTrim(CStr(t)) == t && Unsigned(t) == t && !IsNegative(t) && BaseOf(t) == Oct
  {
    hide DigitOf, CStr, LTrim, Unsigned, IsNegative;
    var t := "0" + s;
    assert t[0] == '0' && forall i :: 1 <= i < |t| ==> t[i] == s[i - 1];
    Plain(t);
  }

  lemma NumberOfOctal(n: nat)
    ensures Number("0" + OctalOf(n)) == if n <= 0x7fff_ffff_ffff_ffff then n else 0x7fff_ffff_ffff_ffff
  {
    hide DigitsValue, DigitsLength, DigitOf, OctalOf, CStr, LTrim, Unsigned, BaseOf, IsNegative;
    var s := OctalOf(n);
    var t := "0" + s;
    OctalDigits(n);
    ZeroDigit();
    OctalPrefix(s);
    assert forall i :: 1 <= i < |t| ==> t[i] == s[i - 1];
    DigitsLengthIs(t, "", Oct);
    assert t + "" == t;
    LeadingZero(s);
  }

  /** A negative number is cut to a long as well. */
  lemma NumberOfNegative(n: nat)
    ensures n <= 0x8000_0000_0000_0000 ==> Number("-" + Decimal(n)) == 0 - n
    ensures n > 0x8000_0000_0000_0000 ==> Number("-" + Decimal(n)) == -0x8000_0000_0000_0000
  {
    hide Decimal, DigitsValue, DigitsLength, DigitOf, CStr, BaseOf, LTrim, Unsigned, Clamp;
    DecimalDigits(n);
    var s := Decimal(n);
    MinusSign(s);
    BaseOfDecimal(n);
    DigitsOfDecimal(n);
    ClampNegative(n);
  }

  lemma MinusSign(s: string)
    requires s != "" && forall i :: 0 <= i < |s| ==> s[i] != 0 as char
    ensures var t := "-" + s;
            LTrim(CStr(t)) == t && Unsigned(t) == s && IsNegative(t)
  {
    hide CStr, LTrim, Unsigned;
    var t := "-" + s;
    assert t[0] == '-' && forall i :: 1 <= i < |t| ==> t[i] == s[i - 1];
    NoNul(t);
    NoSpaceFirst(t);
    Unsign(s);
  }

  lemma NoNul(t: string)
    requires forall i :: 0 <= i < |t| ==> t[i] != 0 as char
    ensures CStr(t) == t
  {
    hide CStr;
  }

  lemma Unsign(s: string)
    ensures Unsigned("-" + s) == s
  {
    assert ("-" + s)[1..] == s;
  }

  lemma DigitsOfDecimal(n: nat)
    ensures var s, b := Decimal(n), if n == 0 then Oct else Dec;
            DigitsLength(s, b) == |s| && DigitsValue(s, b) == n
  {
    hide Decimal, DigitsValue, DigitsLength, DigitOf;
    DecimalDigits(n);
    var s := Decimal(n);
    assert s + "" == s;
    DigitsLengthIs(s, "", Dec);
    if n == 0 {
      OctalZero();
      DigitsLengthIs(s, "", Oct);
    }
  }

  lemma ClampNegative(n: nat)
    ensures Clamp(0 - n, LONG_MAX) == if n <= 0x8000_0000_0000_0000 then 0 - n else -0x8000_0000_0000_0000
  {
  }

  lemma BaseOfDecimal(n: nat)
    ensures BaseOf(Decimal(n)) == if n == 0 then Oct else Dec
  {
    hide Decimal, DigitsValue;
    DecimalDigits(n);
    if n == 0 {
      OctalZero();
    }
  }

  lemma ZeroDigit()
    ensures DigitOf('0') == 0
  {
  }

  lemma {:induction false} LeadingZero(s: string)
    ensures DigitsValue("0" + s, Oct) == DigitsValue(s, Oct)
  {
    if s == "" {
      assert ("0" + s)[..0] == "" && "0" + s == "0";
      assert DigitsValue("", Oct) == 0 && DigitsValue("0", Oct) == 0;
    } else {
      var n := |s| - 1;
      assert ("0" + s)[..|"0" + s| - 1] == "0" + s[..n];
      LeadingZero(s[..n]);
    }
  }

  lemma NumberOfNothing()
    ensures Number("") == 0
  {
  }
}
