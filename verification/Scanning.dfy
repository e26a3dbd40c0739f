/** The parts of sprintf, strlen, strstr and sscanf that the HTTP functions rely on. */
module Scanning {
  import opened Options

  const CRLF := "\r\n"

  /** White space as isspace defines it in the C locale. */
  predicate IsSpace(c: char) {
    c == ' ' || '\t' <= c <= '\r'
  }

  function SkipSpace(s: string): string {
    if s != "" && IsSpace(s[0]) then SkipSpace(s[1..]) else s
  }

  lemma SpaceTable(c: char)
    ensures IsSpace(c) <==> c as int in {9, 10, 11, 12, 13, 32}
  {
  }

  /** Exactly the white space at the start is skipped. */
  lemma {:induction false} SkipSpaceIs(spaces: string, rest: string)
    requires forall k :: 0 <= k < |spaces| ==> IsSpace(spaces[k])
    requires rest == "" || !IsSpace(rest[0])
    ensures SkipSpace(spaces + rest) == rest
  {
    if spaces == "" {
      assert spaces + rest == rest;
    } else {
      assert (spaces + rest)[1..] == spaces[1..] + rest;
      SkipSpaceIs(spaces[1..], rest);
    }
  }

  /** The C string stored at the start of a buffer: everything before the first NUL. */
  function CString(s: string): string {
    if s == "" || s[0] == '\0' then "" else [s[0]] + CString(s[1..])
  }

  /** The text after the first space. */
  function AfterFirstSpace(s: string): Option<string> {
    if s == "" then None
    else if s[0] == ' ' then Some(s[1..])
    else AfterFirstSpace(s[1..])
  }

  // ----- Numbers -----

  predicate IsBase(base: nat) { base == 10 || base == 16 }

  predicate IsDigitOf(c: char, base: nat) {
    || '0' <= c <= '9'
    || (base == 16 && ('a' <= c <= 'f' || 'A' <= c <= 'F'))
  }

  function DigitValue(c: char): (v: nat)
    requires IsDigitOf(c, 16)
    ensures v < 16
    ensures '0' <= c <= '9' ==> v < 10
  {
    if c <= '9' then c as int - '0' as int
    else if c <= 'F' then c as int - 'A' as int + 10
    else c as int - 'a' as int + 10
  }

  /** The digits of each base and their values, in either case of the letters. */
  lemma DigitTable(c: char, v: nat)
    ensures IsDigitOf(c, 10) <==> c in "0123456789"
    ensures IsDigitOf(c, 16) <==> c in "0123456789abcdefABCDEF"
    ensures v < 16 && (c == "0123456789abcdef"[v] || c == "0123456789ABCDEF"[v])
            <==> IsDigitOf(c, 16) && DigitValue(c) == v
  {
    DecimalDigits(c);
    LowerDigits(c);
    UpperDigits(c);
  }

  lemma DecimalDigits(c: char)
    ensures '0' <= c <= '9' <==> c in "0123456789"
    ensures '0' <= c <= '9' ==> "0123456789abcdef"[c as int - 48] == c == "0123456789ABCDEF"[c as int - 48]
  {
    var s := "0123456789";
    assert forall i :: 0 <= i < 10 ==> s[i] as int == 48 + i;
    assert forall i :: 0 <= i < 10 ==> "0123456789abcdef"[i] as int == 48 + i == "0123456789ABCDEF"[i] as int;
  }

  lemma LowerDigits(c: char)
    ensures 'a' <= c <= 'f' ==> "0123456789abcdef"[c as int - 87] == c && c in "0123456789abcdefABCDEF"
  {
  }

  lemma UpperDigits(c: char)
    ensures 'A' <= c <= 'F' ==> "0123456789ABCDEF"[c as int - 55] == c && c in "0123456789abcdefABCDEF"
  {
  }

  predicate AllDigits(s: string, base: nat) {
    forall k :: 0 <= k < |s| ==> IsDigitOf(s[k], base)
  }

  /** The number that a digit string denotes. */
  function NumberOf(s: string, base: nat): nat
    requires AllDigits(s, base)
  {
    if s == "" then 0 else NumberOf(s[..|s| - 1], base) * base + DigitValue(s[|s| - 1])
  }

  function DigitPrefix(s: string, base: nat): (n: nat)
    ensures n <= |s| && AllDigits(s[..n], base)
    ensures n < |s| ==> !IsDigitOf(s[n], base)
  {
    if s == "" || !IsDigitOf(s[0], base) then 0
    else
      var n := DigitPrefix(s[1..], base);
      assert s[..n + 1] == [s[0]] + s[1..][..n];
      n + 1
  }

  lemma {:induction false} DigitPrefixIs(digits: string, rest: string, base: nat)
    requires AllDigits(digits, base)
    requires rest == "" || !IsDigitOf(rest[0], base)
    ensures DigitPrefix(digits + rest, base) == |digits|
  {
    if digits == "" {
      assert digits + rest == rest;
    } else {
      assert (digits + rest)[1..] == digits[1..] + rest;
      DigitPrefixIs(digits[1..], rest, base);
    }
  }

  /** The number at the start of a text: its longest digit prefix, if that is not empty. */
  function ScanNumber(s: string, base: nat): Option<nat> {
    var n := DigitPrefix(s, base);
    if n == 0 then None else Some(NumberOf(s[..n], base))
  }

  lemma ScanNumberIs(digits: string, rest: string, base: nat)
    requires digits != "" && AllDigits(digits, base)
    requires rest == "" || !IsDigitOf(rest[0], base)
    ensures ScanNumber(digits + rest, base) == Some(NumberOf(digits, base))
  {
    DigitPrefixIs(digits, rest, base);
    assert (digits + rest)[..|digits|] == digits;
  }

  /** What sscanf with "%d" reads: white space, an optional sign, decimal digits. */
  function ScanDecimal(s: string): Option<int> {
    ScanSigned(SkipSpace(s))
  }

  function ScanSigned(t: string): Option<int> {
    var signed := t != "" && (t[0] == '-' || t[0] == '+');
    match ScanNumber(if signed then t[1..] else t, 10)
    case None => None
    case Some(v) =>
      var number: int := if signed && t[0] == '-' then 0 - v else v;
      Some(number)
  }

  /**
   * Behind white space and an optional sign, exactly the digits are read, and without a digit
   * there nothing is.
   */
  lemma ScanDecimalIs(spaces: string, sign: string, digits: string, rest: string)
    requires forall k :: 0 <= k < |spaces| ==> IsSpace(spaces[k])
    requires sign == "" || sign == "+" || sign == "-"
    requires AllDigits(digits, 10) && (rest == "" || !IsDigitOf(rest[0], 10))
    requires sign + digits == "" && rest != "" ==> !IsSpace(rest[0]) && rest[0] != '+' && rest[0] != '-'
    ensures var n: int := NumberOf(digits, 10);
            ScanDecimal(spaces + (sign + (digits + rest)))
            == if digits == "" then None else Some(if sign == "-" then -n else n)
  {
    var t := sign + (digits + rest);
    if sign == "" {
      assert t == digits + rest;
      Unsigned(digits, rest);
    } else {
      assert t[0] == sign[0] && t[1..] == digits + rest;
      Signed(t, digits, rest);
    }
    SkipSpaceIs(spaces, t);
  }

  lemma ScanDigits(digits: string, rest: string)
    requires AllDigits(digits, 10) && (rest == "" || !IsDigitOf(rest[0], 10))
    ensures ScanNumber(digits + rest, 10) == if digits == "" then None else Some(NumberOf(digits, 10))
  {
    DigitPrefixIs(digits, rest, 10);
    if digits != "" {
      ScanNumberIs(digits, rest, 10);
    }
  }

  lemma Unsigned(digits: string, rest: string)
    requires AllDigits(digits, 10) && (rest == "" || !IsDigitOf(rest[0], 10))
    requires digits == "" && rest != "" ==> !IsSpace(rest[0]) && rest[0] != '+' && rest[0] != '-'
    ensures digits + rest == "" || !IsSpace((digits + rest)[0])
    ensures ScanSigned(digits + rest) == if digits == "" then None else Some(NumberOf(digits, 10))
  {
    ScanDigits(digits, rest);
    assert digits == "" ==> digits + rest == rest;
    assert digits != "" ==> (digits + rest)[0] == digits[0];
  }

  lemma Signed(t: string, digits: string, rest: string)
    requires t != "" && (t[0] == '+' || t[0] == '-') && t[1..] == digits + rest
    requires AllDigits(digits, 10) && (rest == "" || !IsDigitOf(rest[0], 10))
    ensures var n: int := NumberOf(digits, 10);
            ScanSigned(t) == if digits == "" then None else Some(if t[0] == '-' then -n else n)
  {
    ScanDigits(digits, rest);
  }

  /**
   * Texts on which "%p" is assumed to read plain hexadecimal digits after white space.
   * On the others, which begin with a sign, a 0x prefix or "(nil)", nothing is assumed.
   */
  predicate PlainPointer(s: string) {
    var t := SkipSpace(s);
    t != "" ==>
      && t[0] != '+' && t[0] != '-' && t[0] != '('
      && (t[0] == '0' && |t| > 1 ==> t[1] != 'x' && t[1] != 'X')
  }

  function ScanPointer(s: string): Option<nat> {
    ScanNumber(SkipSpace(s), 16)
  }

  // ----- Printing numbers -----

  /** A table of the digits of a base. */
  predicate IsTable(table: string, base: nat) {
    base <= 16 && base <= |table|
    && forall v :: 0 <= v < base ==> IsDigitOf(table[v], base) && IsDigitOf(table[v], 16) && DigitValue(table[v]) == v
  }

  lemma DigitTables()
    ensures IsTable("0123456789", 10)
    ensures IsTable("0123456789abcdef", 16)
    ensures IsTable("0123456789ABCDEF", 16)
  {
  }

  /** A number in a base, written with the digits of a table. */
  function Print(n: nat, base: nat, table: string): (s: string)
    requires IsBase(base) && IsTable(table, base)
    ensures s != "" && AllDigits(s, base)
  {
    if n < base then [table[n]] else Print(n / base, base, table) + [table[n % base]]
  }

  /** A printed number is read back, whatever the case of its digits is. */
  lemma {:induction false} PrintedNumber(n: nat, base: nat, table: string)
    requires IsBase(base) && IsTable(table, base)
    ensures NumberOf(Print(n, base, table), base) == n
  {
    var s := Print(n, base, table);
    if n < base {
      assert s[..|s| - 1] == "";
    } else {
      assert s[..|s| - 1] == Print(n / base, base, table);
      PrintedNumber(n / base, base, table);
    }
  }
}
