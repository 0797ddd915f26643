/**
 * The text format of a page-feature catalog file, as the C library's
 * formatted input and output functions read and write it:
 *
 *   features <count> <bytes>
 *   <name>=<offset>,<size>
 *   ...
 *
 * Reading follows the conversion rules of `fscanf`: an ordinary character
 * in the format must match exactly, a white-space directive skips any
 * amount of white space (none included), `%d` skips white space and reads
 * an optional sign and at least one digit, and `%20[^=]` reads one to
 * twenty characters other than `=` without skipping anything first.
 * Writing follows `fprintf` with `%d` and `%.20s`.
 */
module CatalogText {
  import opened Common

  /** White space as `isspace` sees it in the C locale. */
  predicate IsSpace(c: char) {
    c == ' ' || c == '\t' || c == '\n' || c == '\r' || c == '\U{0B}' || c == '\U{0C}'
  }

  predicate IsDigit(c: char) {
    '0' <= c <= '9'
  }

  /** A string as C sees it: everything before the first NUL. */
  function CStr(s: string): (r: string)
    ensures '\0' !in r
    ensures '\0' !in s ==> r == s
  {
    if s == [] || s[0] == '\0' then [] else [s[0]] + CStr(s[1..])
  }

  /** The C string is a prefix of the characters it was read from. */
  lemma {:induction false} CStrPrefix(s: string)
    ensures CStr(s) <= s
    decreases |s|
  {
    if s != [] && s[0] != '\0' {
      CStrPrefix(s[1..]);
      assert s == [s[0]] + s[1..];
    }
  }

  /** A white-space directive: skip every leading white-space character. */
  function SkipSpace(s: string): (r: string)
    ensures |r| <= |s| && r == s[|s| - |r|..]
    ensures r == [] || !IsSpace(r[0])
  {
    if s != [] && IsSpace(s[0]) then SkipSpace(s[1..]) else s
  }

  /** The number of leading digits. */
  function DigitCount(s: string): (n: nat)
    ensures n <= |s|
    ensures forall i :: 0 <= i < n ==> IsDigit(s[i])
    ensures n == |s| || !IsDigit(s[n])
  {
    if s != [] && IsDigit(s[0]) then 1 + DigitCount(s[1..]) else 0
  }

  function DigitValue(c: char): nat
    requires IsDigit(c)
  {
    c as int - '0' as int
  }

  /** The value of a string of decimal digits. */
  function DigitsValue(d: string): nat
    requires forall i :: 0 <= i < |d| ==> IsDigit(d[i])
  {
    if d == [] then 0
    else DigitsValue(d[..|d| - 1]) * 10 + DigitValue(d[|d| - 1])
  }

  datatype ScannedInt = ScannedInt(value: int, rest: string)

  /** At least one digit, read as a decimal number. */
  function ScanUnsigned(u: string): (r: Option<ScannedInt>)
    ensures r.Some? ==> |r.value.rest| < |u| && r.value.value >= 0
  {
    var n := DigitCount(u);
    if n == 0 then None else Some(ScannedInt(DigitsValue(u[..n]), u[n..]))
  }

  /** An optional sign followed by at least one digit. */
  function ScanSigned(t: string): (r: Option<ScannedInt>)
    ensures r.Some? ==> |r.value.rest| < |t|
  {
    if t != [] && (t[0] == '-' || t[0] == '+') then
      match ScanUnsigned(t[1..])
      case None => None
      case Some(m) => Some(ScannedInt(if t[0] == '-' then -m.value else m.value, m.rest))
    else ScanUnsigned(t)
  }

  /** A `%d` conversion; `None` is a matching failure. */
  function ScanInt(s: string): (r: Option<ScannedInt>)
    ensures r.Some? ==> |r.value.rest| < |s|
  {
    ScanSigned(SkipSpace(s))
  }

  /** How many characters other than `=` start `s`, at most `max`. */
  function NameRun(s: string, max: nat): (n: nat)
    ensures n <= max && n <= |s|
    ensures forall i :: 0 <= i < n ==> s[i] != '='
    ensures n == max || n == |s| || s[n] == '='
  {
    if max == 0 || s == [] || s[0] == '=' then 0 else 1 + NameRun(s[1..], max - 1)
  }

  datatype ScannedName = ScannedName(name: string, rest: string)

  /** A `%20[^=]` conversion. */
  function ScanName(s: string): (r: Option<ScannedName>)
    ensures r.Some? ==> 1 <= |r.value.name| <= 20 && s == r.value.name + r.value.rest
  {
    var n := NameRun(s, 20);
    if n == 0 then None else Some(ScannedName(s[..n], s[n..]))
  }

  /** An ordinary character of the format followed by `%d`. */
  function ScanAfter(sep: char, s: string): (r: Option<ScannedInt>)
    ensures r.Some? ==> |r.value.rest| < |s|
  {
    if s == [] || s[0] != sep then None else ScanInt(s[1..])
  }

  datatype ScannedHeader = ScannedHeader(count: int, size: int, rest: string)

  /** `" %d %d\n"`: the blanks before each `%d` are subsumed by the white space `%d` skips. */
  function ScanCounts(s: string): Option<ScannedHeader>
  {
    match ScanInt(s)
    case None => None
    case Some(c) =>
      match ScanInt(c.rest)
      case None => None
      case Some(z) => Some(ScannedHeader(c.value, z.value, SkipSpace(z.rest)))
  }

  /** `fscanf(fp, "features %d %d\n", ...)` returning 2. */
  function ScanHeader(s: string): Option<ScannedHeader>
  {
    if |s| < 8 || s[..8] != "features" then None else ScanCounts(s[8..])
  }

  datatype ScannedLine = ScannedLine(name: string, offset: int, size: int, rest: string)

  /** `fscanf(fp, "%20[^=]=%d,%d\n", ...)` returning 3. */
  function ScanLine(s: string): (r: Option<ScannedLine>)
    ensures r.Some? ==> |r.value.rest| < |s|
  {
    match ScanName(s)
    case None => None
    case Some(nm) =>
      match ScanAfter('=', nm.rest)
      case None => None
      case Some(off) =>
        match ScanAfter(',', off.rest)
        case None => None
        case Some(sz) => Some(ScannedLine(nm.name, off.value, sz.value, SkipSpace(sz.rest)))
  }

  /**
   * The lines a `while (fscanf(...) == 3)` loop goes through: every line
   * that yields all three conversions, up to the first that does not.
   */
  function ScanLines(s: string): seq<ScannedLine>
    decreases |s|
  {
    match ScanLine(s)
    case None => []
    case Some(line) => [line] + ScanLines(line.rest)
  }

  // ---------------------------------------------------------------------
  // Writing
  // ---------------------------------------------------------------------

  function DigitChar(d: nat): char
    requires d < 10
  {
    ('0' as int + d) as char
  }

  /** `%d` of a non-negative value. */
  function DecimalText(n: nat): (r: string)
    ensures r != []
  {
    if n < 10 then [DigitChar(n)] else DecimalText(n / 10) + [DigitChar(n % 10)]
  }

  /** `%d` of any value. */
  function IntText(n: int): string
  {
    if n < 0 then "-" + DecimalText(-n) else DecimalText(n)
  }

  /** `%.20s`: the C string, cut to twenty characters. */
  function PrintName(name: string): (r: string)
    ensures |r| <= 20
  {
    var c := CStr(name);
    if |c| <= 20 then c else c[..20]
  }

  function HeaderText(count: int, size: int): string
  {
    "features " + IntText(count) + " " + IntText(size) + "\n"
  }

  function LineText(name: string, offset: int, size: int): string
  {
    PrintName(name) + "=" + IntText(offset) + "," + IntText(size) + "\n"
  }

  // ---------------------------------------------------------------------
  // Reading back what was written
  // ---------------------------------------------------------------------

  /** The decimal text is made of digits only. */
  lemma {:induction false} DecimalDigits(n: nat)
    ensures forall i :: 0 <= i < |DecimalText(n)| ==> IsDigit(DecimalText(n)[i])
  {
    if n >= 10 {
      DecimalDigits(n / 10);
    }
  }

  lemma {:induction false} DecimalValue(n: nat)
    ensures forall i :: 0 <= i < |DecimalText(n)| ==> IsDigit(DecimalText(n)[i])
    ensures DigitsValue(DecimalText(n)) == n
  {
    DecimalDigits(n);
    if n >= 10 {
      DecimalValue(n / 10);
      var d := DecimalText(n);
      assert d[..|d| - 1] == DecimalText(n / 10);
    }
  }

  lemma {:induction false} DigitCountOf(d: string, rest: string)
    requires forall i :: 0 <= i < |d| ==> IsDigit(d[i])
    requires rest == [] || !IsDigit(rest[0])
    ensures DigitCount(d + rest) == |d|
    decreases |d|
  {
    if d != [] {
      assert (d + rest)[1..] == d[1..] + rest;
      DigitCountOf(d[1..], rest);
    } else {
      assert d + rest == rest;
    }
  }

  lemma ScanUnsignedDecimal(n: nat, rest: string)
    requires rest == [] || !IsDigit(rest[0])
    ensures ScanUnsigned(DecimalText(n) + rest) == Some(ScannedInt(n, rest))
  {
    var d := DecimalText(n);
    var s := d + rest;
    DecimalDigits(n);
    DigitCountOf(d, rest);
    assert s[..|d|] == d && s[|d|..] == rest;
    DecimalValue(n);
  }

  lemma DigitFirst(s: string)
    requires s != [] && IsDigit(s[0])
    ensures ScanInt(s) == ScanUnsigned(s)
  {
    assert SkipSpace(s) == s;
  }

  lemma DecimalStartsWithDigit(n: nat, rest: string)
    ensures DecimalText(n) + rest != [] && IsDigit((DecimalText(n) + rest)[0])
  {
    DecimalDigits(n);
    assert (DecimalText(n) + rest)[0] == DecimalText(n)[0];
  }

  /** `%d` reads back the decimal text of a non-negative value. */
  lemma ScanDecimal(n: nat, rest: string)
    requires rest == [] || !IsDigit(rest[0])
    ensures ScanInt(DecimalText(n) + rest) == Some(ScannedInt(n, rest))
  {
    DecimalStartsWithDigit(n, rest);
    DigitFirst(DecimalText(n) + rest);
    ScanUnsignedDecimal(n, rest);
  }

  lemma SkipOneSpace(c: char, t: string)
    requires IsSpace(c)
    ensures SkipSpace([c] + t) == SkipSpace(t)
  {
    assert ([c] + t)[1..] == t;
  }

  /** `%d` skips a leading white-space character. */
  lemma ScanIntSkipsSpace(c: char, t: string)
    requires IsSpace(c)
    ensures ScanInt([c] + t) == ScanInt(t)
  {
    SkipOneSpace(c, t);
  }

  /** `%d` skips leading white space before the number. */
  lemma ScanDecimalAfterSpace(n: nat, rest: string)
    requires rest == [] || !IsDigit(rest[0])
    ensures ScanInt(" " + DecimalText(n) + rest) == Some(ScannedInt(n, rest))
  {
    var t := DecimalText(n) + rest;
    assert " " + DecimalText(n) + rest == [' '] + t;
    ScanIntSkipsSpace(' ', t);
    ScanDecimal(n, rest);
  }

  lemma ScanAfterDecimal(sep: char, n: nat, rest: string)
    requires rest == [] || !IsDigit(rest[0])
    ensures ScanAfter(sep, [sep] + DecimalText(n) + rest) == Some(ScannedInt(n, rest))
  {
    var t := DecimalText(n) + rest;
    assert [sep] + DecimalText(n) + rest == [sep] + t;
    assert ScanAfter(sep, [sep] + t) == ScanInt(t) by {
      assert ([sep] + t)[1..] == t;
    }
    ScanDecimal(n, rest);
  }

  lemma SkipNewline(rest: string)
    requires rest == [] || !IsSpace(rest[0])
    ensures SkipSpace("\n" + rest) == rest
  {
    assert ("\n" + rest)[1..] == rest;
  }

  lemma ScanHeaderKeyword(t: string)
    ensures ScanHeader("features" + t) == ScanCounts(t)
  {
    assert ("features" + t)[..8] == "features" && ("features" + t)[8..] == t;
  }

  lemma ScanCountsText(count: nat, size: nat, rest: string)
    requires rest == [] || !IsSpace(rest[0])
    ensures ScanCounts(" " + DecimalText(count) + (" " + DecimalText(size) + ("\n" + rest)))
         == Some(ScannedHeader(count, size, rest))
  {
    var tail := " " + DecimalText(size) + ("\n" + rest);
    ScanDecimalAfterSpace(count, tail);
    ScanDecimalAfterSpace(size, "\n" + rest);
    SkipNewline(rest);
  }

  /** The header line reads back as the count and byte total written. */
  lemma ScanHeaderText(count: nat, size: nat, rest: string)
    requires rest == [] || !IsSpace(rest[0])
    ensures ScanHeader(HeaderText(count, size) + rest) == Some(ScannedHeader(count, size, rest))
  {
    var counts := " " + DecimalText(count) + (" " + DecimalText(size) + ("\n" + rest));
    assert HeaderText(count, size) + rest == "features" + counts;
    ScanHeaderKeyword(counts);
    ScanCountsText(count, size, rest);
  }

  /** A name that reads back unchanged through `%.20s` and then `%20[^=]`. */
  predicate CatalogName(name: string) {
    1 <= |name| <= 20 && '=' !in name && '\0' !in name && !IsSpace(name[0])
  }

  lemma ScanNameOf(name: string, rest: string)
    requires 1 <= |name| <= 20 && '=' !in name
    requires rest != [] && rest[0] == '='
    ensures ScanName(name + rest) == Some(ScannedName(name, rest))
  {
    NameRunOf(name, rest);
    assert (name + rest)[..|name|] == name && (name + rest)[|name|..] == rest;
  }

  /** A feature line reads back as the name, offset and size written. */
  lemma ScanLineText(name: string, offset: nat, size: nat, rest: string)
    requires CatalogName(name)
    requires rest == [] || !IsSpace(rest[0])
    ensures ScanLine(LineText(name, offset, size) + rest) == Some(ScannedLine(name, offset, size, rest))
  {
    var tail2 := "," + DecimalText(size) + ("\n" + rest);
    var tail1 := "=" + DecimalText(offset) + tail2;
    LineTextSplit(name, offset, size, rest);
    assert tail1[0] == '=' && tail2[0] == ',' && ("\n" + rest)[0] == '\n';
    ScanNameOf(name, tail1);
    ScanAfterDecimal('=', offset, tail2);
    ScanAfterDecimal(',', size, "\n" + rest);
    SkipNewline(rest);
    ScanLineParts(name, offset, size, tail1, tail2, rest);
  }

  /** `ScanLine` on a name, then `=` and a number, then `,` and a number, then a newline. */
  lemma ScanLineParts(name: string, offset: nat, size: nat, tail1: string, tail2: string, rest: string)
    requires ScanName(name + tail1) == Some(ScannedName(name, tail1))
    requires ScanAfter('=', tail1) == Some(ScannedInt(offset, tail2))
    requires ScanAfter(',', tail2) == Some(ScannedInt(size, "\n" + rest))
    requires SkipSpace("\n" + rest) == rest
    ensures ScanLine(name + tail1) == Some(ScannedLine(name, offset, size, rest))
  {
  }

  /** A feature line and what follows it, grouped the way the scanner takes them apart. */
  lemma LineTextSplit(name: string, offset: nat, size: nat, rest: string)
    requires CatalogName(name)
    ensures LineText(name, offset, size) + rest ==
      name + ("=" + DecimalText(offset) + ("," + DecimalText(size) + ("\n" + rest)))
  {
    var b, c := DecimalText(offset), DecimalText(size);
    assert PrintName(name) == name && IntText(offset) == b && IntText(size) == c;
    var r1 := "\n" + rest;
    var tail2 := "," + c + r1;
    var l2 := name + "=" + b;
    Assoc(l2 + "," + c, "\n", rest);
    Assoc(l2 + ",", c, r1);
    Assoc(l2, ",", c + r1);
    Assoc(",", c, r1);
    Assoc(name + "=", b, tail2);
    Assoc(name, "=", b + tail2);
    Assoc("=", b, tail2);
  }

  lemma Assoc(x: string, y: string, z: string)
    ensures x + y + z == x + (y + z)
  {
  }

  lemma {:induction false} NameRunOf(name: string, rest: string)
    requires 1 <= |name| <= 20 && '=' !in name
    requires rest != [] && rest[0] == '='
    ensures NameRun(name + rest, 20) == |name|
  {
    NameRunOfFrom(name, rest, 20);
  }

  lemma {:induction false} NameRunOfFrom(name: string, rest: string, max: nat)
    requires |name| <= max && '=' !in name
    requires rest != [] && rest[0] == '='
    ensures NameRun(name + rest, max) == |name|
    decreases |name|
  {
    if name == [] {
      assert name + rest == rest;
    } else {
      assert (name + rest)[0] == name[0] != '=';
      assert (name + rest)[1..] == name[1..] + rest;
      NameRunOfFrom(name[1..], rest, max - 1);
    }
  }
}
