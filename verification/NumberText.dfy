/** Printing integers (number in lib/vsprintf.c) and reading them back
    (simple_strtoul, simple_strtol and the integer path of vsscanf in
    lib/sscanf.c), with 32-bit words. */
module NumberText {

  import opened CInt
  import opened Wrappers

  /** The flag bits ZEROPAD, SIGN, PLUS, SPACE, LEFT, SPECIAL and SMALL. */
  datatype Flags = Flags(zeropad: bool, sign: bool, plus: bool, space: bool, left: bool, special: bool, small: bool)

  // ----- Digits -------------------------------------------------------------------

  function DigitChar(d: nat, small: bool): char
    requires d < 36
  {
    if d < 10 then '0' + d as char else (if small then 'a' else 'A') + (d - 10) as char
  }

  /** The digits of `n`, most significant first. */
  function Digits(n: nat, base: nat, small: bool): (s: string)
    requires 2 <= base <= 36
    ensures |s| >= 1
  {
    if n < base then [DigitChar(n, small)]
    else
      QuotientShrinks(n, base);
      Digits(n / base, base, small) + [DigitChar(n % base, small)]
  }

  function Repeat(c: char, n: int): (s: string)
    ensures |s| == if n > 0 then n else 0
    ensures forall k | 0 <= k < |s| :: s[k] == c
  {
    if n > 0 then seq(n, _ => c) else ""
  }

  /** Text in front of the digits: the sign character and the base prefix. */
  function SignText(num: int, f: Flags): string {
    if f.sign && num < 0 then "-" else if f.plus then "+" else if f.space then " " else ""
  }

  function PrefixText(base: nat, f: Flags): string {
    if !f.special then "" else if base == 8 then "0" else if base == 16 then ['0', if f.small then 'x' else 'X'] else ""
  }

  /** The magnitude that is printed: negating INT_MIN leaves its bits alone. */
  function Magnitude(num: int, f: Flags): nat
    requires IsInt32(num)
  {
    if f.sign && num < 0 then -num else Unsigned(num)
  }

  /** The field: padding before the sign, between prefix and digits, or behind,
      to at least `size` characters, and at least `precision` digits. */
  function Field(num: int, base: nat, size: int, precision: int, f: Flags): string
    requires IsInt32(num) && 2 <= base <= 36
  {
    var head := SignText(num, f) + PrefixText(base, f);
    var digits := Digits(Magnitude(num, f), base, f.small);
    var number := Repeat('0', precision - |digits|) + digits;
    var pad := size - |head| - |number|;
    if f.left then head + number + Repeat(' ', pad)
    else if f.zeropad then head + Repeat('0', pad) + number
    else Repeat(' ', pad) + head + number
  }

  // ----- number ------------------------------------------------------------------------

  /** The digit loop of number: least significant digit first, into `tmp`. */
  method DigitLoop(n0: nat, base: nat, small: bool, tmp: array<char>) returns (i: nat)
    requires 2 <= base <= 36 && n0 < 0x1_0000_0000 && tmp.Length == 36
    modifies tmp
    ensures 1 <= i <= 32 && i == |Digits(n0, base, small)|
    ensures forall k | 0 <= k < i :: tmp[k] == Digits(n0, base, small)[i - 1 - k]
  {
    var n: nat := n0;
    i := 0;
    if n == 0 {
      tmp[i] := '0';
      i := i + 1;
      return;
    }
    WordDigits(n, base, small);
    ghost var all := Digits(n0, base, small);
    hide Digits, DigitChar;
    while n != 0
      invariant i <= |all| <= 32
      invariant if n == 0 then i == |all| else i < |all| && all[..|all| - i] == Digits(n, base, small)
      invariant forall k | 0 <= k < i :: tmp[k] == all[|all| - 1 - k]
      decreases n
    {
      LastDigit(n, base, small, all, i);
      tmp[i] := DigitChar(n % base, small);
      n := n / base;
      i := i + 1;
    }
  }

  /** One turn of the digit loop, on the digits still to come. */
  lemma LastDigit(n: nat, base: nat, small: bool, all: string, i: nat)
    requires 2 <= base <= 36 && n > 0 && i < |all| && all[..|all| - i] == Digits(n, base, small)
    ensures all[|all| - 1 - i] == DigitChar(n % base, small) && n / base < n
    ensures if n / base == 0 then i + 1 == |all| else i + 1 < |all| && all[..|all| - (i + 1)] == Digits(n / base, base, small)
  {
    QuotientShrinks(n, base);
    DigitsStep(n, base, small);
    var here := Digits(n, base, small);
    hide Digits;
    assert all[|all| - 1 - i] == here[|here| - 1];
    if n >= base {
      assert all[..|all| - (i + 1)] == here[..|here| - 1];
    }
  }

  lemma QuotientShrinks(n: nat, base: nat)
    requires base >= 2 && n > 0
    ensures if n < base then n / base == 0 && n % base == n else 1 <= n / base < n
  {}

  lemma DigitsStep(n: nat, base: nat, small: bool)
    requires 2 <= base <= 36
    ensures var s := Digits(n, base, small);
      if n < base then |s| == 1 && s[0] == DigitChar(n, small)
      else s[..|s| - 1] == Digits(n / base, base, small) && s[|s| - 1] == DigitChar(n % base, small)
  {}

  function Pow(b: nat, k: nat): nat {
    if k == 0 then 1 else b * Pow(b, k - 1)
  }

  lemma TwiceAtMost(q: nat, base: nat)
    requires base >= 2
    ensures q * 2 <= q * base
  {}

  lemma AtMostHalf(n: nat, base: nat)
    requires base >= 2
    ensures 2 * (n / base) <= n
  {
    var q := n / base;
    assert n == q * base + n % base;
    TwiceAtMost(q, base);
  }

  lemma PowersOfTwo()
    ensures Pow(2, 32) == 0x1_0000_0000
  {
    assert Pow(2, 4) == 16 by { assert Pow(2, 2) == 4; }
    assert Pow(2, 8) == 256 by { assert Pow(2, 6) == 64; }
    assert Pow(2, 12) == 4096 by { assert Pow(2, 10) == 1024; }
    assert Pow(2, 16) == 65536 by { assert Pow(2, 14) == 16384; }
    assert Pow(2, 20) == 1048576 by { assert Pow(2, 18) == 262144; }
    assert Pow(2, 24) == 16777216 by { assert Pow(2, 22) == 4194304; }
    assert Pow(2, 28) == 268435456 by { assert Pow(2, 26) == 67108864; }
    assert Pow(2, 30) == 1073741824;
  }

  /** A number below 2^k has at most k digits in any base from 2 on. */
  lemma {:induction false} DigitCount(n: nat, base: nat, small: bool, k: nat)
    requires 2 <= base <= 36 && k >= 1 && n < Pow(2, k)
    ensures |Digits(n, base, small)| <= k
  {
    if n >= base {
      AtMostHalf(n, base);
      QuotientShrinks(n, base);
      assert Pow(2, k) == 2 * Pow(2, k - 1);
      DigitCount(n / base, base, small, k - 1);
    }
  }

  /** A word has at most 32 digits. */
  lemma WordDigits(n: nat, base: nat, small: bool)
    requires 2 <= base <= 36 && n < 0x1_0000_0000
    ensures |Digits(n, base, small)| <= 32
  {
    PowersOfTwo();
    hide Pow;
    DigitCount(n, base, small, 32);
  }

  /** Writes the character as often as the count says; the count, lowered once
      more by the test that fails, ends one below where it stopped. */
  method Emit(str0: string, c: char, count0: int) returns (str: string, count: int)
    ensures str == str0 + Repeat(c, count0)
    ensures count == (if count0 > 0 then 0 else count0) - 1
  {
    str, count := str0, count0;
    while count > 0
      invariant count <= count0 && (count < count0 ==> count >= 0)
      invariant str == str0 + Repeat(c, count0 - count)
      decreases count
    {
      assert Repeat(c, count0 - count + 1) == Repeat(c, count0 - count) + [c];
      count := count - 1;
      str := str + [c];
    }
    count := count - 1;
  }

  /** Lines 80-89 of number: the sign and the prefix. */
  method EmitHead(str0: string, sign: Option<char>, base: nat, f: Flags) returns (str: string)
    ensures str == str0 + ((if sign.Some? then [sign.value] else "") + PrefixText(base, f))
  {
    str := str0;
    if sign.Some? {
      str := str + [sign.value];
    }
    if f.special {
      if base == 8 {
        str := str + "0";
      } else if base == 16 {
        str := str + "0";
        str := str + [DigitChar(33, f.small)];
      }
    }
  }

  /** Lines 76-99 of number: `size` is what is left for padding, `tmp` holds the
      `i` digits, of which `precision` (at least `i`) are to be printed. */
  method EmitField(str0: string, sign: Option<char>, base: nat, f: Flags, size0: int, precision: int,
                   tmp: array<char>, i: nat, ghost digits: string) returns (str: string)
    requires i <= tmp.Length && |digits| == i <= precision && !(f.left && f.zeropad)
    requires forall k | 0 <= k < i :: tmp[k] == digits[i - 1 - k]
    ensures var head := (if sign.Some? then [sign.value] else "") + PrefixText(base, f);
      var number := Repeat('0', precision - i) + digits;
      str == str0 + if f.left then head + number + Repeat(' ', size0)
                    else if f.zeropad then head + Repeat('0', size0) + number
                    else Repeat(' ', size0) + head + number
  {
    hide PrefixText, Repeat;
    ghost var head := (if sign.Some? then [sign.value] else "") + PrefixText(base, f);
    ghost var number := Repeat('0', precision - i) + digits;
    var size := size0;
    str := str0;
    if !f.zeropad && !f.left {
      str, size := Emit(str, ' ', size);
    }
    str := EmitHead(str, sign, base, f);
    if !f.left {
      str, size := Emit(str, if f.zeropad then '0' else ' ', size);
    }
    str := EmitNumber(str, precision, tmp, i, digits);
    str, size := Emit(str, ' ', size);
    NothingToRepeat();
    if f.left {
      Concat(str0, head, number, Repeat(' ', size0));
    } else if f.zeropad {
      Concat(str0, head, Repeat('0', size0), number);
    } else {
      Concat(str0, Repeat(' ', size0), head, number);
    }
  }

  lemma NothingToRepeat()
    ensures forall c, n, s: string | n <= 0 :: s + Repeat(c, n) == s
  {
    assert forall c, n | n <= 0 :: Repeat(c, n) == "";
  }

  lemma Concat(a: string, b: string, c: string, d: string)
    ensures a + b + c + d == a + (b + (c + d)) && a + (b + c) + d == a + (b + (c + d)) && a + b + c + d == a + (b + c + d)
  {}

  /** Lines 93-96 of number: zeros up to the precision, then the digits. */
  method EmitNumber(str0: string, precision: int, tmp: array<char>, i: nat, ghost digits: string) returns (str: string)
    requires i <= tmp.Length && |digits| == i
    requires forall k | 0 <= k < i :: tmp[k] == digits[i - 1 - k]
    ensures str == str0 + (Repeat('0', precision - i) + digits)
  {
    var zeros;
    str, zeros := Emit(str0, '0', precision - i);
    str := EmitDigits(str, tmp, i, digits);
    assert str == str0 + (Repeat('0', precision - i) + digits);
  }

  /** Lines 56-68 of number: sign, magnitude, and the room they leave. */
  method TakeSign(num: int, base: nat, size0: int, f: Flags) returns (sign: Option<char>, magnitude: nat, size: int)
    requires IsInt32(num)
    ensures (if sign.Some? then [sign.value] else "") == SignText(num, f)
    ensures magnitude == Magnitude(num, f) < 0x1_0000_0000
    ensures size == size0 - |SignText(num, f)| - |PrefixText(base, f)|
  {
    size := size0;
    if f.sign && num < 0 {
      sign := Some('-');
      magnitude := -num;
    } else {
      sign := if f.plus then Some('+') else if f.space then Some(' ') else None;
      magnitude := Unsigned(num);
    }
    if sign.Some? {
      size := size - 1;
    }
    if f.special {
      if base == 16 {
        size := size - 2;
      } else if base == 8 {
        size := size - 1;
      }
    }
  }

  /** The field in terms of the quantities that number computes on the way. */
  lemma FieldLaidOut(num: int, base: nat, size0: int, precision0: int, type0: Flags, f: Flags, size: int, precision: int)
    requires IsInt32(num) && 2 <= base <= 36 && f == if type0.left then type0.(zeropad := false) else type0
    requires var n := |Digits(Magnitude(num, f), base, f.small)|; precision == if n > precision0 then n else precision0
    requires size == size0 - |SignText(num, f)| - |PrefixText(base, f)| - precision
    ensures var head := SignText(num, f) + PrefixText(base, f);
      var digits := Digits(Magnitude(num, f), base, f.small);
      var number := Repeat('0', precision - |digits|) + digits;
      Field(num, base, size0, precision0, type0) ==
        if f.left then head + number + Repeat(' ', size)
        else if f.zeropad then head + Repeat('0', size) + number
        else Repeat(' ', size) + head + number
  {
    assert SignText(num, f) == SignText(num, type0) && PrefixText(base, f) == PrefixText(base, type0);
    assert Magnitude(num, f) == Magnitude(num, type0);
    hide Digits, SignText, PrefixText, Magnitude;
    var digits := Digits(Magnitude(num, f), base, f.small);
    assert Repeat('0', precision - |digits|) == Repeat('0', precision0 - |digits|);
  }

  /** number: None stands for the null pointer returned for a bad base. */
  method Number(str0: string, num: int, base: nat, size0: int, precision0: int, type0: Flags) returns (r: Option<string>)
    requires IsInt32(num)
    ensures r == if base < 2 || base > 36 then None else Some(str0 + Field(num, base, size0, precision0, type0))
  {
    var precision, f := precision0, type0;
    if f.left {
      f := f.(zeropad := false);
    }
    if base < 2 || base > 36 { return None; }
    hide Digits, SignText, PrefixText, Magnitude, Field, Repeat;
    var sign, magnitude, size := TakeSign(num, base, size0, f);
    var tmp := new char[36];
    var i := DigitLoop(magnitude, base, f.small, tmp);
    if i > precision {
      precision := i;
    }
    size := size - precision;
    FieldLaidOut(num, base, size0, precision0, type0, f, size, precision);
    var str := EmitField(str0, sign, base, f, size, precision, tmp, i, Digits(magnitude, base, f.small));
    return Some(str);
  }

  /** The collected digits, from the last to the first. */
  method EmitDigits(str0: string, tmp: array<char>, i0: nat, ghost digits: string) returns (str: string)
    requires i0 <= tmp.Length && |digits| == i0
    requires forall k | 0 <= k < i0 :: tmp[k] == digits[i0 - 1 - k]
    ensures str == str0 + digits
  {
    str := str0;
    var i := i0;
    while i > 0
      invariant 0 <= i <= i0 && str == str0 + digits[..i0 - i]
    {
      i := i - 1;
      assert tmp[i] == digits[i0 - 1 - i];
      assert digits[..i0 - i] == digits[..i0 - (i + 1)] + [digits[i0 - 1 - i]];
      str := str + [tmp[i]];
    }
  }

  // ----- Reading -------------------------------------------------------------------------

  /** The value of a hexadecimal digit, or -1. */
  function DigitValue(c: char): int {
    if '0' <= c <= '9' then (c - '0') as int
    else if 'a' <= c <= 'f' then (c - 'a') as int + 10
    else if 'A' <= c <= 'F' then (c - 'A') as int + 10
    else -1
  }

  predicate IsDigitOf(c: char, base: nat) {
    0 <= DigitValue(c) < base
  }

  /** How many of the first characters are digits of the base. */
  function RunLength(s: string, base: nat): (n: nat)
    ensures n <= |s| && forall k | 0 <= k < n :: IsDigitOf(s[k], base)
    ensures n < |s| ==> !IsDigitOf(s[n], base)
  {
    if s != "" && IsDigitOf(s[0], base) then 1 + RunLength(s[1..], base) else 0
  }

  lemma NotNegative(a: nat, b: nat)
    ensures a * b >= 0
  {}

  /** The number a run of digits denotes. */
  function ValueOf(s: string, base: nat): nat
    requires forall k | 0 <= k < |s| :: IsDigitOf(s[k], base)
  {
    if s == "" then 0
    else
      assert IsDigitOf(s[|s| - 1], base);
      var front := ValueOf(s[..|s| - 1], base);
      NotNegative(front, base);
      front * base + DigitValue(s[|s| - 1])
  }

  /** Base 0 lets the text choose: how many characters announce which base. */
  function Detect(cp: string): (r: (nat, nat))
    ensures r.0 <= |cp| && r.1 in {8, 10, 16}
  {
    if cp == "" || cp[0] != '0' then (0, 10)
    else if |cp| > 2 && cp[1] == 'x' && DigitValue(cp[2]) >= 0 then (2, 16)
    else (1, 8)
  }

  /** What simple_strtoul returns: the value of the leading digits, modulo the
      word size; and how much of the text it takes. */
  function ReadUL(cp: string, base: nat): (u: nat)
    ensures u < 0x1_0000_0000
  {
    var (skip, b) := if base == 0 then Detect(cp) else (0, base);
    ValueOf(cp[skip..][..RunLength(cp[skip..], b)], b) % 0x1_0000_0000
  }

  function ReadLength(cp: string, base: nat): (n: nat)
    ensures n <= |cp|
  {
    var (skip, b) := if base == 0 then Detect(cp) else (0, base);
    skip + RunLength(cp[skip..], b)
  }

  /** What simple_strtol returns. */
  function ReadL(cp: string, base: nat): int {
    if cp != "" && cp[0] == '-' then Signed(Negated(ReadUL(cp[1..], base))) else Signed(ReadUL(cp, base))
  }

  method StrToUL(cp0: string, base0: nat) returns (result: nat, endp: string)
    ensures result == ReadUL(cp0, base0) && endp == cp0[ReadLength(cp0, base0)..]
  {
    var cp, base := cp0, base0;
    if base == 0 {
      base := 10;
      if cp != "" && cp[0] == '0' {
        base := 8;
        cp := cp[1..];
        if |cp| > 1 && cp[0] == 'x' && DigitValue(cp[1]) >= 0 {
          cp := cp[1..];
          base := 16;
        }
      }
    }
    ghost var skip := if base0 == 0 then Detect(cp0).0 else 0;
    assert cp == cp0[skip..];
    result, endp := ReadDigits(cp, base);
  }

  /** The accumulating loop of simple_strtoul (lines 28-32). */
  method ReadDigits(cp0: string, base: nat) returns (result: nat, cp: string)
    ensures var n := RunLength(cp0, base);
      result == ValueOf(cp0[..n], base) % 0x1_0000_0000 && cp == cp0[n..]
  {
    cp := cp0;
    result := 0;
    ghost var k := 0;
    assert ValueOf(cp0[..0], base) == 0;
    hide ValueOf;
    while cp != "" && DigitValue(cp[0]) >= 0 && DigitValue(cp[0]) < base
      invariant 0 <= k <= |cp0| && cp == cp0[k..]
      invariant AllDigits(cp0[..k], base) && RunLength(cp0, base) == k + RunLength(cp, base)
      invariant result == ValueOf(cp0[..k], base) % 0x1_0000_0000
      decreases |cp|
    {
      ReadStep(cp0, k, base);
      result := (result * base + DigitValue(cp[0])) % 0x1_0000_0000;
      cp := cp[1..];
      k := k + 1;
    }
    assert cp0[..k] == cp0[..RunLength(cp0, base)];
  }

  /** One turn of that loop: one more digit of the run is taken. */
  lemma ReadStep(s: string, k: nat, base: nat)
    requires k < |s| && AllDigits(s[..k], base) && IsDigitOf(s[k], base)
    ensures AllDigits(s[..k + 1], base) && RunLength(s[k..], base) == 1 + RunLength(s[k + 1..], base)
    ensures ValueOf(s[..k + 1], base) % 0x1_0000_0000
      == (ValueOf(s[..k], base) % 0x1_0000_0000 * base + DigitValue(s[k])) % 0x1_0000_0000
  {
    assert s[..k + 1] == s[..k] + [s[k]] && s[k..][1..] == s[k + 1..];
    AppendDigit(s[..k], s[k], base);
    hide ValueOf;
    WrapStep(ValueOf(s[..k], base), base, DigitValue(s[k]));
  }

  /** Reducing early does not change a word-sized result. */
  lemma WrapStep(v: nat, base: nat, d: nat)
    ensures (v % 0x1_0000_0000 * base + d) % 0x1_0000_0000 == (v * base + d) % 0x1_0000_0000
  {
    var q := v / 0x1_0000_0000;
    var r := v % 0x1_0000_0000;
    assert v == q * 0x1_0000_0000 + r;
    assert v * base == (q * base) * 0x1_0000_0000 + r * base;
    ModShift(r * base + d, q * base);
  }

  lemma ModShift(a: nat, k: nat)
    ensures (k * 0x1_0000_0000 + a) % 0x1_0000_0000 == a % 0x1_0000_0000
  {}

  method StrToL(cp: string, base: nat) returns (n: int, endp: string)
    ensures n == ReadL(cp, base)
    ensures endp == if cp != "" && cp[0] == '-' then cp[1..][ReadLength(cp[1..], base)..] else cp[ReadLength(cp, base)..]
  {
    var u;
    if cp != "" && cp[0] == '-' {
      u, endp := StrToUL(cp[1..], base);
      return Signed(Negated(u)), endp;
    }
    u, endp := StrToUL(cp, base);
    return Signed(u), endp;
  }

  // ----- The integer conversions of vsscanf ------------------------------------------------

  predicate IsSpace(c: char) {
    c == ' ' || c == '\n' || c == '\r' || c == '\t' || c == '\U{000B}' || c == '\U{000C}'
  }

  function SkipSpaces(s: string): (t: string)
    ensures |t| <= |s|
  {
    if s != "" && IsSpace(s[0]) then SkipSpaces(s[1..]) else s
  }

  /** The character test that decides whether a conversion is attempted. */
  predicate Starts(t: string, base: nat, isSign: bool) {
    var u := if isSign && t != "" && t[0] == '-' then t[1..] else t;
    && u != ""
    && (base == 16 ==> DigitValue(u[0]) >= 0)
    && (base == 10 ==> '0' <= u[0] <= '9')
    && (base == 8 ==> '0' <= u[0] <= '7')
    && (base == 0 ==> '0' <= u[0] <= '9')
  }

  /** %d, %u, %o, %x and %i without width or qualifier: bases 10, 8, 16 and 0. */
  function Scan(s: string, base: nat, isSign: bool): Option<int> {
    var t := SkipSpaces(s);
    if !Starts(t, base, isSign) then None
    else Some(if isSign then ReadL(t, base) else ReadUL(t, base))
  }

  /** Where scanning goes on after that. */
  function ScanNext(s: string, base: nat, isSign: bool): string {
    var t := SkipSpaces(s);
    if !Starts(t, base, isSign) then t
    else if isSign && t[0] == '-' then t[1..][ReadLength(t[1..], base)..]
    else t[ReadLength(t, base)..]
  }

  /** Lines 235-298 of vsscanf. */
  method ScanInt(str0: string, base: nat, isSign: bool) returns (r: Option<int>, next: string)
    ensures r == Scan(str0, base, isSign) && next == ScanNext(str0, base, isSign)
  {
    var str := str0;
    while str != "" && IsSpace(str[0])
      invariant SkipSpaces(str) == SkipSpaces(str0)
      decreases |str|
    {
      str := str[1..];
    }
    var digit := if str != "" then Some(str[0]) else None;
    if isSign && digit == Some('-') {
      digit := if |str| > 1 then Some(str[1]) else None;
    }
    if digit == None
      || (base == 16 && DigitValue(digit.value) < 0)
      || (base == 10 && !('0' <= digit.value <= '9'))
      || (base == 8 && (!('0' <= digit.value <= '9') || digit.value > '7'))
      || (base == 0 && !('0' <= digit.value <= '9')) {
      return None, str;
    }
    var n;
    if isSign {
      n, next := StrToL(str, base);
    } else {
      n, next := StrToUL(str, base);
    }
    return Some(n), next;
  }

  // ----- Round trips ----------------------------------------------------------------------

  predicate AllDigits(s: string, base: nat) {
    forall k | 0 <= k < |s| :: IsDigitOf(s[k], base)
  }

  lemma DigitOfValue(d: nat, base: nat, small: bool)
    requires d < base <= 16
    ensures DigitValue(DigitChar(d, small)) == d && IsDigitOf(DigitChar(d, small), base)
  {}

  lemma AppendDigit(s: string, c: char, base: nat)
    requires AllDigits(s, base) && IsDigitOf(c, base)
    ensures AllDigits(s + [c], base) && ValueOf(s + [c], base) == ValueOf(s, base) * base + DigitValue(c)
  {
    assert (s + [c])[..|s|] == s;
  }

  /** The digits of a number denote that number. */
  lemma {:induction false} DigitsValue(n: nat, base: nat, small: bool)
    requires 2 <= base <= 16
    ensures AllDigits(Digits(n, base, small), base) && ValueOf(Digits(n, base, small), base) == n
  {
    DigitsStep(n, base, small);
    Recompose(n, base);
    DigitOfValue(n % base, base, small);
    if n < base {
      AppendDigit("", DigitChar(n, small), base);
      assert "" + [DigitChar(n, small)] == Digits(n, base, small);
    } else {
      DigitsValue(n / base, base, small);
      AppendLast(n / base, n % base, base, Digits(n / base, base, small), DigitChar(n % base, small));
    }
  }

  lemma AppendLast(q: nat, d: nat, base: nat, s: string, c: char)
    requires AllDigits(s, base) && ValueOf(s, base) == q && IsDigitOf(c, base) && DigitValue(c) == d
    ensures AllDigits(s + [c], base) && ValueOf(s + [c], base) == q * base + d
  {
    AppendDigit(s, c, base);
  }

  lemma Recompose(n: nat, base: nat)
    requires base >= 2
    ensures n == n / base * base + n % base && n % base < base
    ensures if n < base then n % base == n else 0 < n / base < n
  {
    if n > 0 {
      QuotientShrinks(n, base);
    }
  }

  /** Zeros in front of digits change nothing. */
  lemma {:induction false} LeadingZeros(z: string, s: string, base: nat)
    requires base >= 1 && AllDigits(s, base) && forall k | 0 <= k < |z| :: z[k] == '0'
    ensures AllDigits(z + s, base) && ValueOf(z + s, base) == ValueOf(s, base)
    decreases |z| + |s|
  {
    assert AllDigits(z + s, base) by {
      forall k | 0 <= k < |z + s| ensures IsDigitOf((z + s)[k], base) {
        if k >= |z| { assert IsDigitOf(s[k - |z|], base); }
      }
    }
    var t := z + s;
    if s != "" {
      assert t[..|t| - 1] == z + s[..|s| - 1] && t[|t| - 1] == s[|s| - 1];
      assert AllDigits(s[..|s| - 1], base);
      LeadingZeros(z, s[..|s| - 1], base);
    } else if z != "" {
      assert t[..|t| - 1] == z[..|z| - 1] + "" && t[|t| - 1] == '0';
      LeadingZeros(z[..|z| - 1], "", base);
    }
  }

  lemma {:induction false} RunOf(ds: string, tail: string, base: nat)
    requires AllDigits(ds, base) && (tail == "" || !IsDigitOf(tail[0], base))
    ensures RunLength(ds + tail, base) == |ds|
  {
    if ds == "" {
      assert ds + tail == tail;
    } else {
      assert (ds + tail)[1..] == ds[1..] + tail && (ds + tail)[0] == ds[0];
      assert IsDigitOf(ds[0], base);
      RunOf(ds[1..], tail, base);
    }
  }

  lemma {:induction false} SkipFront(front: string, t: string)
    requires (forall k | 0 <= k < |front| :: front[k] == ' ') && (t == "" || !IsSpace(t[0]))
    ensures SkipSpaces(front + t) == t
  {
    if front == "" {
      assert front + t == t;
    } else {
      assert (front + t)[1..] == front[1..] + t && (front + t)[0] == front[0];
      SkipFront(front[1..], t);
    }
  }

  predicate OnlyBlanks(s: string) {
    forall k | 0 <= k < |s| :: s[k] == ' '
  }

  /** The zeros and digits of a field, then whatever follows. */
  ghost predicate IsNumeral(t: string, n: nat, base: nat) {
    exists digits, tail :: t == digits + tail && digits != "" && AllDigits(digits, base)
      && ValueOf(digits, base) == n && OnlyBlanks(tail)
  }

  lemma NumeralOf(digits: string, tail: string, n: nat, base: nat)
    requires digits != "" && AllDigits(digits, base) && ValueOf(digits, base) == n
    requires forall k | 0 <= k < |tail| :: tail[k] == ' '
    ensures IsNumeral(digits + tail, n, base)
  {}

  /** Zeros to the precision, and the digits. */
  function NumberPart(num: int, base: nat, precision: int, f: Flags): string
    requires IsInt32(num) && 2 <= base <= 36
  {
    var digits := Digits(Magnitude(num, f), base, f.small);
    Repeat('0', precision - |digits|) + digits
  }

  lemma NumberPartValue(num: int, base: nat, precision: int, f: Flags)
    requires IsInt32(num) && 2 <= base <= 16
    ensures var s := NumberPart(num, base, precision, f);
      s != "" && AllDigits(s, base) && ValueOf(s, base) == Magnitude(num, f)
  {
    hide Magnitude, ValueOf, AllDigits, Repeat;
    var digits := Digits(Magnitude(num, f), base, f.small);
    DigitsValue(Magnitude(num, f), base, f.small);
    LeadingZeros(Repeat('0', precision - |digits|), digits, base);
  }

  /** Every field is spaces, sign, prefix and a numeral. */
  lemma FieldShape(num: int, base: nat, size: int, precision: int, f: Flags) returns (front: string, t: string)
    requires IsInt32(num) && 2 <= base <= 16
    ensures Field(num, base, size, precision, f) == front + (SignText(num, f) + (PrefixText(base, f) + t))
    ensures forall k | 0 <= k < |front| :: front[k] == ' '
    ensures IsNumeral(t, Magnitude(num, f), base)
  {
    var n := Magnitude(num, f);
    var sign, prefix := SignText(num, f), PrefixText(base, f);
    var number := NumberPart(num, base, precision, f);
    var pad := size - |sign + prefix| - |number|;
    assert Field(num, base, size, precision, f) ==
      if f.left then sign + prefix + number + Repeat(' ', pad)
      else if f.zeropad then sign + prefix + Repeat('0', pad) + number
      else Repeat(' ', pad) + (sign + prefix) + number;
    NumberPartValue(num, base, precision, f);
    hide NumberPart, Field, ValueOf, AllDigits, SignText, PrefixText, Magnitude, IsNumeral, Repeat;
    if f.left {
      front, t := "", number + Repeat(' ', pad);
      NumeralOf(number, Repeat(' ', pad), n, base);
      Concat(sign, prefix, number, Repeat(' ', pad));
      EmptyFront(sign + (prefix + t));
    } else if f.zeropad {
      front, t := "", Repeat('0', pad) + number;
      LeadingZeros(Repeat('0', pad), number, base);
      NumeralOf(t, "", n, base);
      EmptyFront(t);
      Concat(sign, prefix, Repeat('0', pad), number);
      EmptyFront(sign + (prefix + t));
    } else {
      front, t := Repeat(' ', pad), number;
      NumeralOf(number, "", n, base);
      EmptyFront(number);
      Concat(Repeat(' ', pad), sign, prefix, number);
    }
  }

  lemma EmptyFront(s: string)
    ensures "" + s == s && s + "" == s
  {}

  /** Skipping white space stops behind a blank sign, and before any other. */
  lemma SkipField(front: string, sign: string, rest: string)
    requires (forall k | 0 <= k < |front| :: front[k] == ' ') && rest != "" && !IsSpace(rest[0])
    requires sign == "" || sign == " " || sign == "-" || sign == "+"
    ensures SkipSpaces(front + (sign + rest)) == if sign == " " || sign == "" then rest else sign + rest
  {
    if sign == " " {
      SkipFront(front + " ", rest);
      assert front + (sign + rest) == (front + " ") + rest;
    } else if sign == "" {
      SkipFront(front, rest);
      assert sign + rest == rest;
    } else {
      SkipFront(front, sign + rest);
    }
  }

  /** Reading a numeral in its own base gives its number back. */
  lemma ReadNumeral(t: string, n: nat, base: nat)
    requires IsNumeral(t, n, base) && 1 <= base <= 16 && n < 0x1_0000_0000
    ensures ReadUL(t, base) == n && t != "" && IsDigitOf(t[0], base)
  {
    var digits, tail :| t == digits + tail && digits != "" && AllDigits(digits, base)
      && ValueOf(digits, base) == n && OnlyBlanks(tail);
    RunOf(digits, tail, base);
    assert t[0..] == t && t[..|digits|] == digits;
    assert IsDigitOf(digits[0], base);
  }

  /** The reader on a field: behind a blank or missing sign it starts at the
      prefix, before any other sign it starts at the sign. */
  lemma ScanField(front: string, sign: string, rest: string, base: nat, isSign: bool)
    requires (forall k | 0 <= k < |front| :: front[k] == ' ') && rest != "" && !IsSpace(rest[0])
    requires sign == "" || sign == " " || sign == "-" || sign == "+"
    ensures var t := if sign == " " || sign == "" then rest else sign + rest;
      Scan(front + (sign + rest), base, isSign) ==
        if !Starts(t, base, isSign) then None
        else Some(if isSign then ReadL(t, base) else ReadUL(t, base))
  {
    SkipField(front, sign, rest);
    hide SkipSpaces, Starts, ReadL, ReadUL, IsSpace;
  }

  /** %d: any field printed for a signed number is read back as that number,
      except when PLUS puts a '+' in front, which the reader does not take. */
  lemma SignedRoundTrip(num: int, size: int, precision: int, f: Flags)
    requires IsInt32(num) && f.sign
    ensures Scan(Field(num, 10, size, precision, f), 10, true) == Some(num) <==> !(f.plus && num >= 0)
  {
    hide Field, ReadUL, ReadL, Scan, IsNumeral, Starts, IsSpace, Digits;
    var front, t := FieldShape(num, 10, size, precision, f);
    ReadNumeral(t, Magnitude(num, f), 10);
    EmptyFront(t);
    DigitNotSpace(t[0]);
    assert PrefixText(10, f) + t == t;
    ScanField(front, SignText(num, f), t, 10, true);
    ScanSigned(SignText(num, f), t, Magnitude(num, f));
    hide DigitValue, IsDigitOf, PrefixText;
  }

  lemma DigitNotSpace(c: char)
    requires IsDigitOf(c, 10)
    ensures !IsSpace(c)
  {}

  /** The signed reader on a sign and a numeral. */
  lemma ScanSigned(sign: string, t: string, n: nat)
    requires t != "" && IsDigitOf(t[0], 10) && ReadUL(t, 10) == n
    ensures Starts(t, 10, true) && ReadL(t, 10) == Signed(n)
    ensures sign == "-" ==> Starts(sign + t, 10, true) && ReadL(sign + t, 10) == Signed(Negated(n))
    ensures sign == "+" ==> !Starts(sign + t, 10, true)
  {
    if sign == "-" {
      assert (sign + t)[1..] == t;
    }
  }

  /** %u, %o and %x: read back in the base they were printed in, except behind
      a '+', and except that reading stops after the 0 of a "0x" prefix. */
  lemma UnsignedRoundTrip(num: int, base: nat, size: int, precision: int, f: Flags)
    requires IsInt32(num) && !f.sign && (base == 8 || base == 10 || base == 16)
    ensures Scan(Field(num, base, size, precision, f), base, false) == Some(Unsigned(num))
      <==> !f.plus && !(f.special && base == 16 && num != 0)
  {
    UnsignedScan(num, base, size, precision, f);
    hide Field, Scan;
    assert Magnitude(num, f) == Unsigned(num);
  }

  lemma UnsignedScan(num: int, base: nat, size: int, precision: int, f: Flags)
    requires IsInt32(num) && !f.sign && (base == 8 || base == 10 || base == 16)
    ensures Scan(Field(num, base, size, precision, f), base, false)
      == if f.plus then None else Some(if f.special && base == 16 then 0 else Magnitude(num, f))
  {
    hide Field, ReadUL, Scan, IsNumeral, PrefixText, SkipSpaces, Digits;
    var front, t := FieldShape(num, base, size, precision, f);
    var sign, p := SignText(num, f), PrefixText(base, f) + t;
    PrefixedNumeral(t, Magnitude(num, f), base, f);
    ScanField(front, sign, p, base, false);
  }

  /** Reading a numeral behind its prefix, in its own base. */
  lemma PrefixedNumeral(t: string, n: nat, base: nat, f: Flags)
    requires IsNumeral(t, n, base) && (base == 8 || base == 10 || base == 16) && n < 0x1_0000_0000
    ensures var p := PrefixText(base, f) + t;
      p != "" && IsDigitOf(p[0], base) && ReadUL(p, base) == if f.special && base == 16 then 0 else n
  {
    ReadNumeral(t, n, base);
    var prefix := PrefixText(base, f);
    var p := prefix + t;
    if f.special && base == 16 {
      assert p == "0" + p[1..] && !IsDigitOf(p[1], 16);
      RunOf("0", p[1..], 16);
      assert p[0..] == p && p[..1] == "0";
      assert ValueOf("0"[..0], 16) == 0;
    } else if f.special && base == 8 {
      NumeralZero(t, n, base);
      ReadNumeral("0" + t, n, base);
    } else {
      assert p == t;
    }
  }

  lemma NumeralZero(t: string, n: nat, base: nat)
    requires IsNumeral(t, n, base) && base >= 1
    ensures IsNumeral("0" + t, n, base)
  {
    var digits, tail :| t == digits + tail && digits != "" && AllDigits(digits, base)
      && ValueOf(digits, base) == n && OnlyBlanks(tail);
    LeadingZeros("0", digits, base);
    hide ValueOf, AllDigits;
    assert "0" + t == ("0" + digits) + tail;
  }

  /** %i (base 0) of a SPECIAL octal or hexadecimal field: the prefix chooses
      the base again, provided it is the lower-case "0x". */
  lemma SelfDescribing(num: int, base: nat, size: int, precision: int, f: Flags)
    requires IsInt32(num) && !f.sign && f.special && (base == 8 || base == 16)
    ensures Scan(Field(num, base, size, precision, f), 0, true) == Some(num)
      <==> !f.plus && (base == 8 || f.small || num == 0)
  {
    SelfDescribed(num, base, size, precision, f);
    hide Scan, Field;
    assert Magnitude(num, f) == Unsigned(num);
  }

  lemma SelfDescribed(num: int, base: nat, size: int, precision: int, f: Flags)
    requires IsInt32(num) && !f.sign && f.special && (base == 8 || base == 16)
    ensures Scan(Field(num, base, size, precision, f), 0, true)
      == if f.plus then None else Some(Signed(if base == 16 && !f.small then 0 else Magnitude(num, f)))
  {
    hide Scan, Field, ReadUL, ReadL, IsNumeral, PrefixText, Digits, DigitValue, Starts, SkipSpaces;
    var front, t := FieldShape(num, base, size, precision, f);
    var sign, p := SignText(num, f), PrefixText(base, f) + t;
    DetectedNumeral(t, Magnitude(num, f), base, f);
    ScanField(front, sign, p, 0, true);
    ScanDetected(sign, p);
  }

  lemma ScanDetected(sign: string, p: string)
    requires p != "" && p[0] == '0'
    ensures Starts(p, 0, true) && ReadL(p, 0) == Signed(ReadUL(p, 0))
    ensures sign == "+" ==> !Starts(sign + p, 0, true)
  {}

  lemma DetectedNumeral(t: string, n: nat, base: nat, f: Flags)
    requires IsNumeral(t, n, base) && (base == 8 || base == 16) && n < 0x1_0000_0000 && f.special
    ensures var p := PrefixText(base, f) + t;
      p != "" && p[0] == '0' && ReadUL(p, 0) == if base == 16 && !f.small then 0 else n
  {
    ReadNumeral(t, n, base);
    var p := PrefixText(base, f) + t;
    if base == 8 {
      assert p[1..] == t && t[0] != 'x';
      assert Detect(p) == (1, 8);
    } else if f.small {
      assert p[2..] == t && p[2] == t[0];
      assert Detect(p) == (2, 16);
    } else {
      assert Detect(p) == (1, 8);
      RunOf("", p[1..], 8);
      assert "" + p[1..] == p[1..];
    }
  }

  /** Printing with number and reading with vsscanf, one after the other. */
  method PrintAndScan(num: int, size: int, precision: int, f: Flags) returns (r: Option<int>)
    requires IsInt32(num) && f.sign
    ensures r == Some(num) <==> !(f.plus && num >= 0)
  {
    var text := Number("", num, 10, size, precision, f);
    assert "" + Field(num, 10, size, precision, f) == Field(num, 10, size, precision, f);
    var next;
    r, next := ScanInt(text.value, 10, true);
    SignedRoundTrip(num, size, precision, f);
  }

  // ----- The printed field, without reference to how it is built -----------------------------

  /** How many characters of a field are sign and prefix. */
  function HeadLength(num: int, base: nat, f: Flags): nat {
    (if (f.sign && num < 0) || f.plus || f.space then 1 else 0)
    + (if f.special && base == 16 then 2 else if f.special && base == 8 then 1 else 0)
  }

  /** A field without room to spare and without prefix: zeros up to the
      precision and the digits, behind '-' for a negative number, else behind
      '+' when PLUS asks for it, else behind one blank when SPACE does. */
  lemma UnpaddedField(num: int, base: nat, precision: int, f: Flags)
    requires IsInt32(num) && 2 <= base <= 36 && !f.special
    ensures var negative := f.sign && num < 0;
      var digits := Digits(if negative then -num else if num < 0 then num + 0x1_0000_0000 else num, base, f.small);
      var number := Repeat('0', precision - |digits|) + digits;
      var text := Field(num, base, 0, precision, f);
      && (negative ==> text == "-" + number)
      && (!negative && !f.plus && !f.space ==> text == number)
      && (!negative && f.plus ==> text == "+" + number)
      && (!negative && !f.plus && f.space ==> text == " " + number)
  {
    hide Field, Padded, Repeat, Digits, HeadLength;
    FieldForm(num, base, 0, precision, f);
    PaddedText(SignText(num, f) + PrefixText(base, f), NumberPart(num, base, precision, f), 0, f);
    EmptyFront(SignText(num, f));
    EmptyFront(NumberPart(num, base, precision, f));
  }

  /** SPECIAL puts "0x" or "0X", or one '0' for octal, between sign and number. */
  lemma SpecialField(num: int, base: nat, precision: int, f: Flags)
    requires IsInt32(num) && 2 <= base <= 36 && f.special
    ensures var plain := Field(num, base, 0, precision, f.(special := false));
      var k := if (f.sign && num < 0) || f.plus || f.space then 1 else 0;
      k <= |plain| &&
      Field(num, base, 0, precision, f) == plain[..k]
        + (if base == 16 then (if f.small then "0x" else "0X") else if base == 8 then "0" else "") + plain[k..]
  {
    var g := f.(special := false);
    var sign := SignText(num, f);
    assert SignText(num, g) == sign && PrefixText(base, g) == "" && NumberPart(num, base, precision, g) == NumberPart(num, base, precision, f);
    assert PrefixText(base, f) == if base == 16 then (if f.small then "0x" else "0X") else if base == 8 then "0" else "";
    assert |sign| == if (f.sign && num < 0) || f.plus || f.space then 1 else 0;
    hide Field, NumberPart, SignText, PrefixText, HeadLength, Repeat, Digits, Padded;
    FieldForm(num, base, 0, precision, f);
    FieldForm(num, base, 0, precision, g);
    PaddedText(sign + PrefixText(base, f), NumberPart(num, base, precision, f), 0, f);
    PaddedText(sign + PrefixText(base, g), NumberPart(num, base, precision, f), 0, g);
    EmptyFront(sign);
  }

  /** A wider field has blanks behind with LEFT, else zeros between head and
      number with ZEROPAD, else blanks in front; it is as wide as asked for, or
      as what is printed. */
  lemma PaddedField(num: int, base: nat, size: int, precision: int, f: Flags)
    requires IsInt32(num) && 2 <= base <= 36
    ensures var bare := Field(num, base, 0, precision, f);
      var text := Field(num, base, size, precision, f);
      var k := HeadLength(num, base, f);
      && |text| == (if size > |bare| then size else |bare|)
      && k < |bare| && |bare| - k >= precision
      && (f.left ==> text == bare + Repeat(' ', size - |bare|))
      && (!f.left && f.zeropad ==> text == bare[..k] + Repeat('0', size - |bare|) + bare[k..])
      && (!f.left && !f.zeropad ==> text == Repeat(' ', size - |bare|) + bare)
  {
    hide Field, NumberPart, SignText, PrefixText, HeadLength, Repeat, Digits;
    var head, number := SignText(num, f) + PrefixText(base, f), NumberPart(num, base, precision, f);
    FieldForm(num, base, size, precision, f);
    FieldForm(num, base, 0, precision, f);
    PaddedText(head, number, size, f);
    PaddedText(head, number, 0, f);
  }

  /** A head and a number, padded as the flags say. */
  function Padded(head: string, number: string, size: int, f: Flags): string {
    var pad := size - |head| - |number|;
    if f.left then head + number + Repeat(' ', pad)
    else if f.zeropad then head + Repeat('0', pad) + number
    else Repeat(' ', pad) + head + number
  }

  lemma FieldForm(num: int, base: nat, size: int, precision: int, f: Flags)
    requires IsInt32(num) && 2 <= base <= 36
    ensures Field(num, base, size, precision, f) ==
      Padded(SignText(num, f) + PrefixText(base, f), NumberPart(num, base, precision, f), size, f)
    ensures |SignText(num, f) + PrefixText(base, f)| == HeadLength(num, base, f)
    ensures |NumberPart(num, base, precision, f)| >= 1 && |NumberPart(num, base, precision, f)| >= precision
  {
    hide Digits;
  }

  lemma PaddedText(head: string, number: string, size: int, f: Flags)
    ensures var bare := head + number; var text := Padded(head, number, size, f);
      && |text| == (if size > |bare| then size else |bare|)
      && bare[..|head|] == head && bare[|head|..] == number
      && (size <= 0 ==> text == bare)
      && (f.left ==> text == bare + Repeat(' ', size - |bare|))
      && (!f.left && f.zeropad ==> text == head + Repeat('0', size - |bare|) + number)
      && (!f.left && !f.zeropad ==> text == Repeat(' ', size - |bare|) + bare)
  {
    var bare := head + number;
    Associate(Repeat(' ', size - |bare|), head, number);
    if size <= 0 {
      NothingToRepeat();
      assert Repeat(' ', size - |bare|) == "" && Repeat('0', size - |bare|) == "";
      assert bare + "" == bare && "" + bare == bare && head + "" == head;
    }
  }

  const LOWER := "0123456789abcdefghijklmnopqrstuvwxyz"
  const UPPER := "0123456789ABCDEFGHIJKLMNOPQRSTUVWXYZ"

  /** The digits come from the table for their case, and do not begin with a 0
      unless the number is 0. */
  lemma {:induction false} DigitsInCase(n: nat, base: nat, small: bool)
    requires 2 <= base <= 36
    ensures Digits(n, base, small)[|Digits(n, base, small)| - 1] == (if small then LOWER else UPPER)[n % base]
    ensures n >= base ==> Digits(n, base, small)[..|Digits(n, base, small)| - 1] == Digits(n / base, base, small)
    ensures n > 0 ==> Digits(n, base, small)[0] != '0'
    ensures n == 0 ==> Digits(n, base, small) == "0"
    decreases n
  {
    DigitInTable(n % base, small);
    if n < base {
      DigitInTable(n, small);
      SmallMod(n, base);
    } else {
      QuotientShrinks(n, base);
      DigitsInCase(n / base, base, small);
      assert Digits(n, base, small)[0] == Digits(n / base, base, small)[0];
    }
  }

  lemma SmallMod(n: nat, base: nat)
    requires n < base
    ensures n % base == n
  {}

  lemma DigitInTable(d: nat, small: bool)
    requires d < 36
    ensures DigitChar(d, small) == (if small then LOWER else UPPER)[d]
    ensures DigitChar(d, small) == '0' <==> d == 0
  {}

  // ----- The reader, without reference to how it reads ---------------------------------------

  /** Exactly the six white-space characters are skipped. */
  lemma {:induction false} WhiteSkipped(white: string, t: string, base: nat, isSign: bool)
    requires forall k | 0 <= k < |white| :: white[k] in " \t\n\r\U{000B}\U{000C}"
    ensures Scan(white + t, base, isSign) == Scan(t, base, isSign) && ScanNext(white + t, base, isSign) == ScanNext(t, base, isSign)
    ensures t != "" && t[0] !in " \t\n\r\U{000B}\U{000C}" ==> SkipSpaces(t) == t
  {
    if white == "" {
      assert white + t == t;
    } else {
      assert (white + t)[1..] == white[1..] + t && (white + t)[0] == white[0];
      WhiteSkipped(white[1..], t, base, isSign);
    }
  }

  /** Reading starts exactly at a digit of the base, or at a '-' in front of one
      when a signed number is read; base 0 wants a decimal digit. */
  lemma StartsAtDigit(c: char, rest: string, base: nat, isSign: bool)
    requires base in {0, 8, 10, 16} && c !in " \t\n\r\U{000B}\U{000C}"
    ensures var digits := if base == 16 then "0123456789abcdefABCDEF" else if base == 8 then "01234567" else "0123456789";
      if c != '-' then Scan([c] + rest, base, isSign) == None <==> c !in digits
      else Scan([c] + rest, base, isSign) == None <==> !isSign || rest == "" || rest[0] !in digits
  {
    var s := [c] + rest;
    assert s[1..] == rest && SkipSpaces(s) == s;
    hide SkipSpaces;
    DecimalDigit(c);
    if rest != "" { DecimalDigit(rest[0]); }
  }

  lemma DecimalDigit(c: char)
    ensures c in "0123456789" <==> '0' <= c <= '9'
    ensures c in "01234567" <==> '0' <= c <= '7'
    ensures c in "0123456789abcdefABCDEF" <==> DigitValue(c) >= 0
  {}

  /** Behind a number reading goes on with what follows its digits. */
  lemma ReadsUpTo(digits: string, tail: string, base: nat)
    requires AllDigits(digits, base) && (tail == "" || !IsDigitOf(tail[0], base)) && base > 0
    ensures ReadUL(digits + tail, base) == ValueOf(digits, base) % 0x1_0000_0000
    ensures (digits + tail)[ReadLength(digits + tail, base)..] == tail
  {
    RunOf(digits, tail, base);
    assert (digits + tail)[0..] == digits + tail && (digits + tail)[..|digits|] == digits;
  }

  /** Two signed numbers printed with a blank between them are read one after
      the other. */
  lemma TwoNumbers(a: int, b: int, size: int, precision: int, f: Flags, g: Flags)
    requires IsInt32(a) && IsInt32(b) && f.sign && g.sign && !(f.plus && a >= 0) && !(g.plus && b >= 0)
    ensures var text := Field(a, 10, size, precision, f) + (" " + Field(b, 10, size, precision, g));
      && Scan(text, 10, true) == Some(a)
      && Scan(ScanNext(text, 10, true), 10, true) == Some(b)
  {
    hide Field, Scan, ScanNext, IsNumeral;
    var second := " " + Field(b, 10, size, precision, g);
    var blanks := ScanThrough(a, size, precision, f, second);
    SignedRoundTrip(b, size, precision, g);
    assert blanks + second == (blanks + " ") + Field(b, 10, size, precision, g);
    WhiteSkipped(blanks + " ", Field(b, 10, size, precision, g), 10, true);
  }

  /** Reading a signed field in front of a blank leaves the field's own padding
      and what follows. */
  lemma ScanThrough(num: int, size: int, precision: int, f: Flags, more: string) returns (blanks: string)
    requires IsInt32(num) && f.sign && !(f.plus && num >= 0) && more != "" && more[0] == ' '
    ensures forall k | 0 <= k < |blanks| :: blanks[k] == ' '
    ensures Scan(Field(num, 10, size, precision, f) + more, 10, true) == Some(num)
    ensures ScanNext(Field(num, 10, size, precision, f) + more, 10, true) == blanks + more
  {
    hide Field, IsNumeral, Scan, ScanNext, ValueOf, AllDigits;
    var front, t := FieldShape(num, 10, size, precision, f);
    var n := Magnitude(num, f);
    var digits;
    digits, blanks := NumeralParts(t, n, more);
    EmptyFront(t);
    assert PrefixText(10, f) + t == t;
    Associate(front, SignText(num, f) + t, more);
    Associate(SignText(num, f), t, more);
    assert (blanks + more)[0] == ' ';
    ReadThrough(front, SignText(num, f), digits, blanks + more, n);
  }

  /** Blanks, sign and digits in front of a blank: what is read, and what is left. */
  lemma ReadThrough(front: string, sign: string, digits: string, tail: string, n: nat)
    requires OnlyBlanks(front) && sign in {"", " ", "-"} && tail != "" && tail[0] == ' '
    requires digits != "" && AllDigits(digits, 10) && ValueOf(digits, 10) == n < 0x1_0000_0000
    ensures var text := front + (sign + (digits + tail));
      && Scan(text, 10, true) == Some(if sign == "-" then Signed(Negated(n)) else Signed(n))
      && ScanNext(text, 10, true) == tail
  {
    hide SkipSpaces, ReadUL, ReadLength, ValueOf, Starts, ReadL;
    var rest := digits + tail;
    ReadsUpTo(digits, tail, 10);
    FirstDigit(digits, tail);
    SkipField(front, sign, rest);
    ScanSigned(sign, rest, n);
    if sign == "-" {
      assert (sign + rest)[1..] == rest && (sign + rest)[0] == '-';
    }
  }

  lemma FirstDigit(digits: string, tail: string)
    requires digits != "" && AllDigits(digits, 10)
    ensures IsDigitOf((digits + tail)[0], 10) && !IsSpace((digits + tail)[0]) && (digits + tail)[0] != '-'
  {
    assert IsDigitOf(digits[0], 10);
  }

  lemma NumeralParts(t: string, n: nat, more: string) returns (digits: string, blanks: string)
    requires IsNumeral(t, n, 10)
    ensures t == digits + blanks && t + more == digits + (blanks + more)
    ensures digits != "" && AllDigits(digits, 10) && ValueOf(digits, 10) == n && OnlyBlanks(blanks)
  {
    var d, b :| t == d + b && d != "" && AllDigits(d, 10) && ValueOf(d, 10) == n && OnlyBlanks(b);
    digits, blanks := d, b;
    Associate(d, b, more);
  }

  // ----- Numbers printed and read, written out ------------------------------------------------

  lemma PrintedDigits()
    ensures Digits(0, 10, false) == "0" && Digits(5, 10, false) == "5" && Digits(7, 10, false) == "7"
    ensures Digits(42, 10, false) == "42" && Digits(8, 8, false) == "10"
    ensures Digits(255, 16, false) == "FF" && Digits(255, 16, true) == "ff"
  {}

  lemma OneMoreDigit(n: nat, base: nat, small: bool, q: nat, front: string, all: string)
    requires 2 <= base <= 36 && q > 0 && q * base <= n < q * base + base && Digits(q, base, small) == front
    requires all == front + [(if small then LOWER else UPPER)[n - q * base]]
    ensures Digits(n, base, small) == all
  {
    Quotient(n, base, q);
    DigitsInCase(n, base, small);
    hide Digits;
    assert Digits(n, base, small) == Digits(n, base, small)[..|Digits(n, base, small)| - 1] + [Digits(n, base, small)[|Digits(n, base, small)| - 1]];
  }

  lemma Quotient(n: nat, base: nat, q: nat)
    requires base >= 2 && q > 0 && q * base <= n < q * base + base
    ensures n / base == q && n % base == n - q * base && n >= base
  {
    assert n == n / base * base + n % base;
    assert (n / base + 1) * base == n / base * base + base && (q + 1) * base == q * base + base;
    CancelFactor(n / base, q + 1, base);
    CancelFactor(q, n / base + 1, base);
    if n < base {
      CancelFactor(q, 1, base);
    }
  }

  lemma CancelFactor(a: nat, b: nat, c: nat)
    requires a * c < b * c
    ensures a < b
  {}

  lemma PrintedFront()
    ensures Digits(2147, 10, false) == "2147"
  {
    assert Digits(2, 10, false) == "2";
    hide Digits;
    OneMoreDigit(21, 10, false, 2, "2", "21");
    OneMoreDigit(214, 10, false, 21, "21", "214");
    OneMoreDigit(2147, 10, false, 214, "214", "2147");
  }

  lemma PrintedMiddle()
    ensures Digits(2147483, 10, false) == "2147483"
  {
    PrintedFront();
    hide Digits;
    OneMoreDigit(21474, 10, false, 2147, "2147", "21474");
    OneMoreDigit(214748, 10, false, 21474, "21474", "214748");
    OneMoreDigit(2147483, 10, false, 214748, "214748", "2147483");
  }

  lemma PrintedDecimal()
    ensures Digits(2147483648, 10, false) == "2147483648"
  {
    PrintedMiddle();
    hide Digits;
    OneMoreDigit(21474836, 10, false, 2147483, "2147483", "21474836");
    OneMoreDigit(214748364, 10, false, 21474836, "21474836", "214748364");
    OneMoreDigit(2147483648, 10, false, 214748364, "214748364", "2147483648");
  }

  lemma PrintedHalf()
    ensures Digits(65535, 16, true) == "ffff"
  {
    assert Digits(15, 16, true) == "f";
    hide Digits;
    OneMoreDigit(255, 16, true, 15, "f", "ff");
    OneMoreDigit(4095, 16, true, 255, "ff", "fff");
    OneMoreDigit(65535, 16, true, 4095, "fff", "ffff");
  }

  lemma PrintedHex()
    ensures Digits(4294967295, 16, true) == "ffffffff"
  {
    PrintedHalf();
    hide Digits;
    OneMoreDigit(1048575, 16, true, 65535, "ffff", "fffff");
    OneMoreDigit(16777215, 16, true, 1048575, "fffff", "ffffff");
    OneMoreDigit(268435455, 16, true, 16777215, "ffffff", "fffffff");
    OneMoreDigit(4294967295, 16, true, 268435455, "fffffff", "ffffffff");
  }

  /** %d 5, % d 7, %+04d 7. */
  lemma PrintedPositive()
    ensures var d := Flags(false, true, false, false, false, false, false);
      && Field(5, 10, 0, 0, d) == "5"
      && Field(7, 10, 0, 0, d.(space := true)) == " 7"
      && Field(7, 10, 4, 0, d.(plus := true, zeropad := true)) == "+007"
  {
    PrintedDigits();
    hide Digits;
    assert Repeat('0', 2) == "00";
  }

  /** %06d -42, %d INT_MIN. */
  lemma PrintedNegative()
    ensures var d := Flags(false, true, false, false, false, false, false);
      && Field(-42, 10, 6, 0, d.(zeropad := true)) == "-00042"
      && Field(-0x8000_0000, 10, 0, 0, d) == "-2147483648"
  {
    PrintedDigits();
    PrintedDecimal();
    hide Digits;
    assert Repeat('0', 3) == "000";
  }

  /** %.3d 0, %x -1. */
  lemma PrintedPrecision()
    ensures Field(0, 10, 0, 3, Flags(false, true, false, false, false, false, false)) == "000"
    ensures Field(-1, 16, 0, 0, Flags(false, false, false, false, false, false, true)) == "ffffffff"
  {
    PrintedDigits();
    PrintedHex();
    hide Digits;
    assert Repeat('0', 2) == "00";
  }

  /** %#10.4x 255, %-#8X 255, %#o 8. */
  lemma PrintedPrefix()
    ensures var u := Flags(false, false, false, false, false, true, false);
      && Field(255, 16, 10, 4, u.(small := true)) == "    0x00ff"
      && Field(255, 16, 8, 0, u.(left := true)) == "0XFF    "
      && Field(8, 8, 0, 0, u) == "010"
  {
    PrintedDigits();
    hide Digits;
    assert Repeat('0', 2) == "00" && Repeat(' ', 4) == "    ";
  }

  /** The text of a number in its base, in front of something that is no digit of it. */
  lemma ReadText(n: nat, base: nat, small: bool, tail: string)
    requires 2 <= base <= 16 && (tail == "" || !IsDigitOf(tail[0], base))
    ensures ReadUL(Digits(n, base, small) + tail, base) == n % 0x1_0000_0000
    ensures (Digits(n, base, small) + tail)[ReadLength(Digits(n, base, small) + tail, base)..] == tail
  {
    DigitsValue(n, base, small);
    ReadsUpTo(Digits(n, base, small), tail, base);
    hide Digits, ValueOf;
  }

  /** What base 0 does with a text that announces its base. */
  lemma AnnouncedBase(text: string)
    requires text != ""
    ensures DigitValue(text[0]) >= 0 ==> ReadUL("0x" + text, 0) == ReadUL(text, 16)
    ensures text[0] != 'x' ==> ReadUL("0" + text, 0) == ReadUL(text, 8)
    ensures text[0] != '0' ==> ReadUL(text, 0) == ReadUL(text, 10)
  {
    hide ValueOf, RunLength, DigitValue;
    assert ("0x" + text)[2..] == text && ("0x" + text)[2] == text[0] && text[0..] == text;
    assert ("0" + text)[1..] == text && ("0" + text)[1] == text[0];
  }

  /** Base 0: behind "0x" hexadecimal digits, in either case; behind another 0
      octal ones; otherwise decimal ones. */
  lemma ReadAnyBase(n: nat, small: bool, tail: string)
    ensures (tail == "" || !IsDigitOf(tail[0], 16)) ==>
      ReadUL("0x" + (Digits(n, 16, small) + tail), 0) == n % 0x1_0000_0000
    ensures (tail == "" || !IsDigitOf(tail[0], 8)) ==>
      ReadUL("0" + (Digits(n, 8, small) + tail), 0) == n % 0x1_0000_0000
    ensures n > 0 && (tail == "" || !IsDigitOf(tail[0], 10)) ==>
      ReadUL(Digits(n, 10, small) + tail, 0) == n % 0x1_0000_0000
  {
    hide Digits, ReadUL, ReadLength, IsDigitOf;
    if tail == "" || !IsDigitOf(tail[0], 16) {
      ReadText(n, 16, small, tail);
      HexBehind(n, small, tail);
      AnnouncedBase(Digits(n, 16, small) + tail);
    }
    if tail == "" || !IsDigitOf(tail[0], 8) {
      ReadText(n, 8, small, tail);
      OctalBehind(n, small, tail);
      AnnouncedBase(Digits(n, 8, small) + tail);
    }
    if n > 0 && (tail == "" || !IsDigitOf(tail[0], 10)) {
      ReadText(n, 10, small, tail);
      DigitsInCase(n, 10, small);
      AnnouncedBase(Digits(n, 10, small) + tail);
    }
  }

  lemma HexBehind(n: nat, small: bool, tail: string)
    ensures DigitValue((Digits(n, 16, small) + tail)[0]) >= 0
  {
    DigitsValue(n, 16, small);
    assert IsDigitOf(Digits(n, 16, small)[0], 16);
  }

  lemma OctalBehind(n: nat, small: bool, tail: string)
    ensures (Digits(n, 8, small) + tail)[0] != 'x'
  {
    DigitsValue(n, 8, small);
    assert IsDigitOf(Digits(n, 8, small)[0], 8);
  }

  /** "0x" without a hexadecimal digit behind it is the octal number 0. */
  lemma NoHexDigit(c: char, rest: string)
    requires DigitValue(c) < 0
    ensures ReadUL("0x" + ([c] + rest), 0) == 0 && ("0x" + ([c] + rest))[ReadLength("0x" + ([c] + rest), 0)..] == "x" + ([c] + rest)
  {
    var s := "0x" + ([c] + rest);
    assert s[1..] == "x" + ([c] + rest) && s[2] == c && RunLength(s[1..], 8) == 0;
  }
}
