/** `integer_parser` of `Include/cxxopts.hpp`: text to an integer of a given width, with every
    intermediate result of the unsigned type the code computes in. */
module IntegerParser {
  import Digits

  /** The target type. */
  datatype IntType = IntType(bits: nat, signed: bool)

  predicate Supported(t: IntType) {
    t.bits in {8, 16, 32, 64}
  }

  /** The number of values of the type. */
  function Modulus(t: IntType): nat
    requires Supported(t)
  {
    match t.bits
    case 8 => 0x100
    case 16 => 0x1_0000
    case 32 => 0x1_0000_0000
    case 64 => 0x1_0000_0000_0000_0000
  }

  function Min(t: IntType): int
    requires Supported(t)
  {
    if t.signed then -(Modulus(t) / 2) else 0
  }

  function Max(t: IntType): int
    requires Supported(t)
  {
    if t.signed then Modulus(t) / 2 - 1 else Modulus(t) - 1
  }

  datatype Result = Parsed(value: int) | IncorrectArgumentType

  predicate IsAlnum(c: char) {
    '0' <= c <= '9' || 'a' <= c <= 'z' || 'A' <= c <= 'Z'
  }

  predicate AllAlnum(s: string) {
    forall k :: 0 <= k < |s| ==> IsAlnum(s[k])
  }

  /** The parts `integer_pattern` captures. Its second alternative adds no text to the first. */
  datatype IntegerDesc = NoMatch | IntegerDesc(negative: bool, hex: bool, value: string)

  function SplitInteger(text: string): (d: IntegerDesc)
    ensures d.IntegerDesc? ==> d.value != ""
  {
    var negative := text != "" && text[0] == '-';
    var rest := if negative then text[1..] else text;
    if |rest| > 2 && rest[..2] == "0x" && AllAlnum(rest[2..]) then IntegerDesc(negative, true, rest[2..])
    else if rest != "" && AllAlnum(rest) then IntegerDesc(negative, false, rest)
    else NoMatch
  }

  predicate DigitOf(base: nat, c: char) {
    '0' <= c <= '9' || (base == 16 && ('a' <= c <= 'f' || 'A' <= c <= 'F'))
  }

  function DigitValue(base: nat, c: char): (d: nat)
    requires DigitOf(base, c)
    ensures d < 16 && (base == 10 ==> d < 10)
  {
    if '0' <= c <= '9' then c as int - '0' as int
    else if 'a' <= c <= 'f' then c as int - 'a' as int + 10
    else c as int - 'A' as int + 10
  }

  predicate AllDigits(base: nat, s: string) {
    forall k :: 0 <= k < |s| ==> DigitOf(base, s[k])
  }

  /** The number the digits denote. */
  function Number(base: nat, s: string): nat
    requires AllDigits(base, s)
  {
    if s == "" then 0 else Number(base, s[..|s| - 1]) * base + DigitValue(base, s[|s| - 1])
  }

  function Signed(negative: bool, n: int): int {
    if negative then -n else n
  }

  // ----- what a text means

  /** `text` is an optional minus, an optional `0x` and digits of that base denoting `v`. */
  ghost predicate Denotes(text: string, v: int) {
    exists negative, hex, digits :: DenotesAs(text, v, negative, hex, digits)
  }

  predicate DenotesAs(text: string, v: int, negative: bool, hex: bool, digits: string) {
    var base := if hex then 16 else 10;
    && text == (if negative then "-" else "") + (if hex then "0x" else "") + digits
    && digits != "" && AllDigits(base, digits)
    && v == Signed(negative, Number(base, digits))
  }

  /** A minus sign, even of zero, is refused for unsigned types. */
  ghost predicate Accepts(t: IntType, text: string, v: int)
    requires Supported(t)
  {
    Denotes(text, v) && Min(t) <= v <= Max(t) && (text != "" && text[0] == '-' ==> t.signed)
  }

  /** The result as a function of the parts: what the loop is proved to compute. */
  function Meaning(t: IntType, text: string): Result
    requires Supported(t)
  {
    var d := SplitInteger(text);
    if d.NoMatch? then IncorrectArgumentType
    else
      var base := if d.hex then 16 else 10;
      if !AllDigits(base, d.value) || (d.negative && !t.signed) then IncorrectArgumentType
      else
        var v := Signed(d.negative, Number(base, d.value));
        if Min(t) <= v <= Max(t) then Parsed(v) else IncorrectArgumentType
  }

  lemma RestOfText(negative: bool, rest: string)
    requires rest != "" && rest[0] != '-'
    ensures var text := (if negative then "-" else "") + rest;
            && (text != "" && text[0] == '-' <==> negative)
            && (if negative then text[1..] else text) == rest
  {}

  lemma HexRest(hex: bool, digits: string)
    requires digits != "" && AllDigits(if hex then 16 else 10, digits)
    ensures var rest := (if hex then "0x" else "") + digits;
            && rest[0] != '-' && AllAlnum(digits)
            && (hex ==> rest[..2] == "0x" && rest[2..] == digits)
            && (!hex && |rest| > 2 ==> rest[..2] != "0x")
  {
    if !hex && |digits| > 2 {
      assert "" + digits == digits && digits[..2][1] == digits[1] && "0x"[1] == 'x';
      assert DigitOf(10, digits[1]);
    }
  }

  lemma SplitOfParts(text: string, v: int, negative: bool, hex: bool, digits: string)
    requires DenotesAs(text, v, negative, hex, digits)
    ensures SplitInteger(text) == IntegerDesc(negative, hex, digits)
  {
    hide Number, DigitOf;
    var rest := (if hex then "0x" else "") + digits;
    assert text == (if negative then "-" else "") + rest;
    HexRest(hex, digits);
    RestOfText(negative, rest);
    hide AllDigits, AllAlnum;
  }

  lemma PartsOfSplit(text: string)
    requires SplitInteger(text).IntegerDesc?
    ensures var d := SplitInteger(text);
            text == (if d.negative then "-" else "") + (if d.hex then "0x" else "") + d.value
  {
    var negative := text != "" && text[0] == '-';
    var rest := if negative then text[1..] else text;
    assert text == (if negative then "-" else "") + rest;
    if |rest| > 2 && rest[..2] == "0x" {
      assert rest == "0x" + rest[2..];
    }
  }

  /** The parser accepts a text exactly when it denotes a value of the type, and returns that value. */
  lemma MeaningIsDenotation(t: IntType, text: string, v: int)
    requires Supported(t)
    ensures Meaning(t, text) == Parsed(v) <==> Accepts(t, text, v)
  {
    hide SplitInteger;
    if Meaning(t, text) == Parsed(v) {
      PartsOfSplit(text);
      var d := SplitInteger(text);
      assert DenotesAs(text, v, d.negative, d.hex, d.value);
      assert text[0] == '-' ==> d.negative by { FirstOfParts(d.hex, d.value); }
    }
    if Accepts(t, text, v) {
      var negative, hex, digits :| DenotesAs(text, v, negative, hex, digits);
      SplitOfParts(text, v, negative, hex, digits);
      assert negative ==> text[0] == '-';
    }
  }

  lemma FirstOfParts(hex: bool, digits: string)
    requires digits != "" && AllDigits(if hex then 16 else 10, digits)
    ensures ((if hex then "0x" else "") + digits)[0] != '-'
  {}

  // ----- texts of a number

  /** The digits as they are written, the hexadecimal ones in small or capital letters. */
  predicate Numerals(base: nat, digits: string) {
    || (base == 10 && digits == "0123456789")
    || (base == 16 && digits in {"0123456789abcdef", "0123456789ABCDEF"})
  }

  function Written(n: nat, base: nat, digits: string): string
    requires Numerals(base, digits)
  {
    if n < base then [digits[n]] else Written(n / base, base, digits) + [digits[n % base]]
  }

  lemma NumeralIs(base: nat, digits: string, d: nat)
    requires Numerals(base, digits) && d < base
    ensures DigitOf(base, digits[d]) && DigitValue(base, digits[d]) == d
  {
    if base == 10 {
      assert digits == "0123456789";
    } else if digits == "0123456789abcdef" {
      assert digits[d] == "0123456789abcdef"[d];
    } else {
      assert digits[d] == "0123456789ABCDEF"[d];
    }
  }

  lemma {:induction false} WrittenNumber(n: nat, base: nat, digits: string)
    requires Numerals(base, digits)
    ensures var s := Written(n, base, digits);
            s != "" && AllDigits(base, s) && Number(base, s) == n
    decreases n
  {
    hide DigitOf, DigitValue, Numerals;
    assert base in {10, 16} by { BaseIs(base, digits); }
    NumeralIs(base, digits, n % base);
    var s := Written(n, base, digits);
    if n < base {
      assert n % base == n && s[..0] == "";
      NumeralIs(base, digits, n);
    } else {
      WrittenNumber(n / base, base, digits);
      assert s[..|s| - 1] == Written(n / base, base, digits);
      assert n == n / base * base + n % base;
    }
  }

  lemma BaseIs(base: nat, digits: string)
    requires Numerals(base, digits)
    ensures base in {10, 16} && |digits| == base
  {}

  /** Every number is read from its decimal and its hexadecimal text, with or without a sign, if the
      type holds it; a text of another number is refused. */
  lemma WrittenMeaning(t: IntType, n: nat, negative: bool, base: nat, digits: string)
    requires Supported(t) && Numerals(base, digits)
    ensures var text := (if negative then "-" else "") + (if base == 16 then "0x" else "") + Written(n, base, digits);
            var v: int := if negative then -(n as int) else n;
            Meaning(t, text) == if Min(t) <= v <= Max(t) && (negative ==> t.signed) then Parsed(v) else IncorrectArgumentType
  {
    hide Written, Number, AllDigits, SplitInteger, Min, Max;
    BaseIs(base, digits);
    WrittenNumber(n, base, digits);
    var text := (if negative then "-" else "") + (if base == 16 then "0x" else "") + Written(n, base, digits);
    SplitOfParts(text, if negative then -(n as int) else n, negative, base == 16, Written(n, base, digits));
  }

  lemma {:induction false} DecimalIsWritten(n: nat)
    ensures Digits.Decimal(n) == Written(n, 10, "0123456789")
  {
    Digits.DecimalIs(n);
    if n >= 10 {
      DecimalIsWritten(n / 10);
    }
  }

  /** In particular what `std::to_string` prints. */
  lemma DecimalMeaning(t: IntType, n: nat)
    requires Supported(t)
    ensures n <= Max(t) ==> Meaning(t, Digits.Decimal(n)) == Parsed(n)
    ensures t.signed && n <= -Min(t) ==> Meaning(t, "-" + Digits.Decimal(n)) == Parsed(-(n as int))
  {
    hide Written, Meaning, Digits.Decimal, Modulus;
    DecimalIsWritten(n);
    var text := Written(n, 10, "0123456789");
    assert "" + "" + text == text && "-" + "" + text == "-" + text;
    ModulusRange(t);
    WrittenMeaning(t, n, false, 10, "0123456789");
    WrittenMeaning(t, n, true, 10, "0123456789");
  }

  /** The ranges of the types. */
  lemma Ranges()
    ensures Min(IntType(8, true)) == -128 && Max(IntType(8, true)) == 127
    ensures Min(IntType(16, true)) == -32768 && Max(IntType(16, true)) == 32767
    ensures Min(IntType(32, true)) == -2147483648 && Max(IntType(32, true)) == 2147483647
    ensures Min(IntType(64, true)) == -9223372036854775808 && Max(IntType(64, true)) == 9223372036854775807
    ensures Max(IntType(8, false)) == 255 && Max(IntType(16, false)) == 65535
    ensures Max(IntType(32, false)) == 4294967295 && Max(IntType(64, false)) == 18446744073709551615
    ensures forall t: IntType :: Supported(t) && !t.signed ==> Min(t) == 0
  {}

  // ----- the loop

  /** Arithmetic of the unsigned type: narrow types are promoted to `int` and do not wrap. */
  function Wrapped(t: IntType, x: int): int
    requires Supported(t)
  {
    if t.bits < 32 then x else x % Modulus(t)
  }

  function Limit(t: IntType, negative: bool): nat
    requires Supported(t)
  {
    if negative then (if t.signed then Modulus(t) / 2 else 0) else Max(t)
  }

  lemma Grows(n: nat, base: nat)
    requires base > 0
    ensures n <= n * base
  {}

  lemma {:induction false} NumberOfPrefix(base: nat, s: string, n: nat)
    requires base > 0 && AllDigits(base, s) && n <= |s|
    ensures Number(base, s[..n]) <= Number(base, s)
    decreases |s|
  {
    if n < |s| {
      var front := s[..|s| - 1];
      assert front[..n] == s[..n];
      NumberOfPrefix(base, front, n);
      Grows(Number(base, front), base);
    } else {
      assert s[..n] == s;
    }
  }

  /** `static_cast<R>` of a value of the unsigned type, or of a promoted one. */
  function ToSigned(t: IntType, x: int): int
    requires Supported(t)
  {
    var u := x % Modulus(t);
    if u < Modulus(t) / 2 then u else u - Modulus(t)
  }

  /** `checked_negate`, which reaches the minimum without overflow. */
  function CheckedNegate(t: IntType, u: nat): int
    requires Supported(t)
  {
    -ToSigned(t, Wrapped(t, u - 1)) - 1
  }

  lemma CheckedNegateIs(t: IntType, u: nat)
    requires Supported(t) && t.signed && u <= Modulus(t) / 2
    ensures CheckedNegate(t, u) == Signed(true, u)
    ensures Min(t) <= -ToSigned(t, Wrapped(t, u - 1)) <= Max(t) + 1
  {}

  lemma QuotientBound(base: nat, limit: nat, result: nat)
    requires base in {10, 16}
    ensures result <= limit / base <==> result * base <= limit
  {}

  lemma NoWrap(t: IntType, x: int)
    requires Supported(t) && 0 <= x < Modulus(t)
    ensures Wrapped(t, x) == x && x % Modulus(t) == x
  {}

  /** The two guards together let a digit through exactly when the new value is within the limit. */
  lemma Guards(t: IntType, base: nat, limit: nat, result: nat, digit: nat)
    requires Supported(t) && base in {10, 16} && digit < 16 && 100 < limit < Modulus(t) && result <= limit
    ensures result > limit / base || Wrapped(t, result * base) > Wrapped(t, limit - digit)
            <==> result * base + digit > limit
    ensures result * base + digit <= limit ==> (result * base + digit) % Modulus(t) == result * base + digit
  {
    hide Modulus, Wrapped;
    QuotientBound(base, limit, result);
    NoWrap(t, limit - digit);
    if result * base <= limit {
      NoWrap(t, result * base);
    }
    if result * base + digit <= limit {
      NoWrap(t, result * base + digit);
    }
  }

  lemma ModulusRange(t: IntType)
    requires Supported(t)
    ensures Modulus(t) > 100
  {}

  lemma LimitRange(t: IntType, negative: bool)
    requires Supported(t) && (t.signed || !negative)
    ensures 100 < Limit(t, negative) < Modulus(t)
    ensures Limit(t, negative) == (if negative then -Min(t) else Max(t))
  {}

  lemma NumberStep(base: nat, digits: string, i: nat)
    requires i < |digits| && AllDigits(base, digits[..i + 1]) && AllDigits(base, digits[..i])
    ensures DigitOf(base, digits[i])
    ensures Number(base, digits[..i + 1]) == Number(base, digits[..i]) * base + DigitValue(base, digits[i])
  {
    hide DigitOf, DigitValue;
    var seen := digits[..i + 1];
    assert seen[..i] == digits[..i] && seen[i] == digits[i];
  }

  /** One digit: either the guards refuse, and so must any text that continues like this, or the
      value of the digits so far is kept. */
  lemma Step(t: IntType, base: nat, digits: string, i: nat, negative: bool, result: nat)
    requires Supported(t) && base in {10, 16} && i < |digits| && AllDigits(base, digits[..i + 1])
    requires (t.signed || !negative) && result == Number(base, digits[..i]) <= Limit(t, negative)
    ensures var digit := DigitValue(base, digits[i]);
            var limit := Limit(t, negative);
            if result > limit / base || Wrapped(t, result * base) > Wrapped(t, limit - digit)
            then AllDigits(base, digits) ==> Number(base, digits) > limit
            else (result * base + digit) % Modulus(t) == Number(base, digits[..i + 1]) <= limit
  {
    hide Modulus, Wrapped, Limit, DigitValue, Number;
    assert AllDigits(base, digits[..i]);
    NumberStep(base, digits, i);
    LimitRange(t, negative);
    Guards(t, base, Limit(t, negative), result, DigitValue(base, digits[i]));
    if AllDigits(base, digits) {
      NumberOfPrefix(base, digits, i + 1);
    }
  }

  lemma NoDigits(t: IntType, base: nat, digits: string, negative: bool)
    requires Supported(t) && base in {10, 16}
    ensures AllDigits(base, digits[..0]) && Number(base, digits[..0]) == 0 <= Limit(t, negative) && Modulus(t) > 0
  {
    hide Modulus;
    ModulusRange(t);
  }

  lemma OneDigitMore(base: nat, digits: string, i: nat)
    requires i < |digits| && AllDigits(base, digits[..i])
    ensures AllDigits(base, digits[..i + 1]) <==> DigitOf(base, digits[i])
    ensures AllDigits(base, digits) ==> DigitOf(base, digits[i])
  {
    assert digits[..i + 1] == digits[..i] + [digits[i]];
  }

  /** What the range check and the negation at the end make of the value of the digits. */
  lemma Concluded(t: IntType, negative: bool, result: nat)
    requires Supported(t) && t.signed && result <= Limit(t, negative)
    ensures result <= (if negative then Modulus(t) / 2 else Max(t))
    ensures Min(t) <= Signed(negative, result) <= Max(t)
    ensures negative ==> CheckedNegate(t, result) == Signed(true, result)
  {
    hide CheckedNegate, Modulus;
    ModulusRange(t);
    if negative {
      CheckedNegateIs(t, result);
    }
  }

  lemma RefusedIs(t: IntType, negative: bool, n: nat)
    requires Supported(t) && (t.signed || !negative)
    ensures n > Limit(t, negative) <==> !(Min(t) <= Signed(negative, n) <= Max(t))
  {
    hide Modulus;
    ModulusRange(t);
  }

  method Parse(t: IntType, text: string) returns (r: Result)
    requires Supported(t)
    ensures r == Meaning(t, text)
  {
    hide SplitInteger, Modulus, Wrapped, AllDigits, Number, DigitValue, Limit, CheckedNegate;
    var desc := SplitInteger(text);
    if desc.NoMatch? {
      return IncorrectArgumentType;
    }
    var negative, base, digits := desc.negative, if desc.hex then 16 else 10, desc.value;
    var result: int := 0;
    NoDigits(t, base, digits, negative);
    for i := 0 to |digits|
      invariant AllDigits(base, digits[..i])
      invariant 0 <= result < Modulus(t)
      invariant t.signed || !negative ==> result == Number(base, digits[..i]) <= Limit(t, negative)
    {
      OneDigitMore(base, digits, i);
      if !DigitOf(base, digits[i]) {
        return IncorrectArgumentType;
      }
      var digit: int := DigitValue(base, digits[i]);
      var limit: int := Limit(t, negative);
      if t.signed || !negative {
        Step(t, base, digits, i, negative, result);
        if AllDigits(base, digits) {
          RefusedIs(t, negative, Number(base, digits));
        }
      }
      if result > limit / base {
        return IncorrectArgumentType;
      }
      if Wrapped(t, result * base) > Wrapped(t, limit - digit) {
        return IncorrectArgumentType;
      }
      result := (result * base + digit) % Modulus(t);
    }
    assert digits[..|digits|] == digits;
    if t.signed {
      Concluded(t, negative, result);
    } else {
      RefusedIs(t, false, result);
    }
    if t.signed && result > (if negative then Modulus(t) / 2 else Max(t)) {
      return IncorrectArgumentType;
    }
    if negative {
      if !t.signed {
        return IncorrectArgumentType;
      }
      r := Parsed(CheckedNegate(t, result));
    } else {
      r := Parsed(result);
    }
  }
}
